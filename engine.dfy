/** The text system: the object the game updates once per frame. Its methods
    change its fields in place and are proved against Navigation.Step. */
module Engine {
  import opened Content
  import opened Navigation

  /** The scan of the active button map in iteration order: every entry whose
      button fires overwrites the action found so far. */
  method ScanButtons(buttons: ButtonMap, keys: set<KeyCode>) returns (action: Option<ButtonAction>)
    ensures action == LastFired(buttons, keys)
  {
    action := None;
    for i := 0 to |buttons|
      invariant action == LastFired(buttons[..i], keys)
    {
      var (name, button) := buttons[i];
      assert buttons[..i + 1][..i] == buttons[..i];
      if name == "green" && (Space in keys || Y in keys) {
        action := Some(button.action);
      } else if name == "red" && N in keys {
        action := Some(button.action);
      } else if name == "yellow" && M in keys {
        action := Some(button.action);
      }
    }
    assert buttons[..|buttons|] == buttons;
  }

  class TextSystem {
    var book: Option<Book>
    var pageIndex: nat
    var pageRead: u32
    var scores: seq<Score>

    /** The navigation state held in the fields. */
    function State(): Session
      reads this
    {
      Session(book, pageIndex, pageRead, scores)
    }

    ghost predicate Valid()
      reads this
    {
      Inv(State()) && ScoresRecordCounter(State())
    }

    /** A new system: no book yet, index 0, nothing read, no scores. */
    constructor ()
      ensures State() == Initial && Valid()
    {
      book := None;
      pageIndex := 0;
      pageRead := 0;
      scores := [];
    }

    /** The current page, if any. */
    function CurrentPage(): (r: Option<Page>)
      reads this
      ensures r.Some? <==> book.Some? && pageIndex < |book.value.pages|
      ensures r.Some? ==> r.value == book.value.pages[pageIndex]
    {
      PageAt(book, pageIndex)
    }

    /** The index of the first page called `name`, if a book is loaded and has one. */
    method PageByName(name: string) returns (r: Option<nat>)
      ensures r == PageIndexByName(book, name)
    {
      if book.Some? {
        var pages := book.value.pages;
        for i := 0 to |pages|
          invariant forall j :: 0 <= j < i ==> pages[j].name != Some(name)
        {
          match pages[i].name
          case Some(pageName) =>
            if pageName == name {
              return Some(i);
            }
          case None =>
        }
      }
      return None;
    }

    /** Advance to the next page; the page shown next must exist, because
        setting it up indexes the book's pages without a check. */
    method MoveNext()
      requires book.Some? && pageIndex + 1 < |book.value.pages|
      modifies this
      ensures State() == old(State()).(pageIndex := old(pageIndex) + 1)
    {
      pageIndex := pageIndex + 1;
    }

    /** Jump to the first page called `name`; nothing changes if there is none. */
    method JumpTo(name: string)
      modifies this
      ensures var found := PageIndexByName(old(book), name);
        State() == if found.Some? then old(State()).(pageIndex := found.value) else old(State())
    {
      var found := PageByName(name);
      if found.Some? {
        pageIndex := found.value;
      }
    }

    /** End the run: record a score holding the current counter. */
    method SpawnLeaderboard(now: Timestamp)
      modifies this
      ensures State() == old(State()).(scores := old(scores) + [Score(now, old(pageRead))])
    {
      scores := scores + [Score(now, pageRead)];
    }

    /** Take the book from the asset the first time it is available. */
    method LoadBook(asset: Option<Book>)
      modifies this
      ensures State() == Load(old(State()), asset)
    {
      if book.None? {
        if asset.Some? {
          book := asset;
          pageIndex := 0;
        }
      }
    }

    /** Resolve the pressed keys against the current page, count the page
        read and apply the action. */
    method HandleInputs(keys: set<KeyCode>, now: Timestamp)
      requires CanHandle(State(), keys)
      modifies this
      ensures State() == HandleInput(old(State()), keys, now)
    {
      var page := CurrentPage();
      if page.Some? {
        var buttons := ActiveButtons(book.value, page.value);
        var action := ScanButtons(buttons, keys);
        if action.Some? {
          var a := action.value;
          if page.value.isFinal {
            a := JumpToEnd;
          }
          assert PageAt(State().book, State().pageIndex) == page;
          assert Resolve(State(), keys) == Some(a);
          pageRead := pageRead + 1;
          match a
          case NextPage => MoveNext();
          case JumpToPage(target) => JumpTo(target);
          case JumpToEnd => SpawnLeaderboard(now);
        }
      }
    }

    /** One frame: load the book if needed, then handle the pressed keys. */
    method Update(asset: Option<Book>, keys: set<KeyCode>, now: Timestamp)
      requires Valid()
      requires CanStep(State(), asset, keys)
      modifies this
      ensures State() == Step(old(State()), asset, keys, now)
      ensures Valid()
    {
      StepKeepsInvariants(State(), asset, keys, now);
      LoadBook(asset);
      HandleInputs(keys, now);
    }
  }
}

/** The navigation and scoring rules of the text system, stated on values:
    which page is current, which button map is active, which action a frame's
    key presses resolve to, and how one frame changes the session. */
module Navigation {
  import opened Content

  /** The page the system shows: the book's page at `index`, if a book is
      loaded and the index is in range. */
  function PageAt(book: Option<Book>, index: nat): (r: Option<Page>)
    ensures r.Some? <==> book.Some? && index < |book.value.pages|
    ensures r.Some? ==> r.value == book.value.pages[index]
  {
    if book.Some? && index < |book.value.pages| then Some(book.value.pages[index]) else None
  }

  /** The buttons in force on `page`: its own map, or the book's defaults. */
  function ActiveButtons(book: Book, page: Page): (r: ButtonMap)
    ensures page.buttons.Some? ==> r == page.buttons.value
    ensures page.buttons.None? ==> r == book.defaultButtons
  {
    match page.buttons
    case Some(buttons) => buttons
    case None => book.defaultButtons
  }

  /** Whether the button called `name` is pressed by `keys`. */
  predicate Fires(name: string, keys: set<KeyCode>)
    ensures Fires(name, keys) ==> name == "green" || name == "red" || name == "yellow"
    ensures Fires(name, keys) ==> Space in keys || Y in keys || N in keys || M in keys
  {
    (name == "green" && (Space in keys || Y in keys))
    || (name == "red" && N in keys)
    || (name == "yellow" && M in keys)
  }

  /** The press rule, one button name at a time. */
  lemma FiringRule(name: string, keys: set<KeyCode>)
    ensures name == "green" ==> (Fires(name, keys) <==> Space in keys || Y in keys)
    ensures name == "red" ==> (Fires(name, keys) <==> N in keys)
    ensures name == "yellow" ==> (Fires(name, keys) <==> M in keys)
    ensures name != "green" && name != "red" && name != "yellow" ==> !Fires(name, keys)
  {
  }

  /** The action of the last entry, in iteration order, whose button fires. */
  function LastFired(buttons: seq<(string, Button)>, keys: set<KeyCode>): (r: Option<ButtonAction>)
    ensures r.None? <==> forall i :: 0 <= i < |buttons| ==> !Fires(buttons[i].0, keys)
    ensures r.Some? ==>
      exists i :: 0 <= i < |buttons| && Fires(buttons[i].0, keys) && r.value == buttons[i].1.action
        && forall j :: i < j < |buttons| ==> !Fires(buttons[j].0, keys)
    decreases |buttons|
  {
    if |buttons| == 0 then None
    else
      var last := buttons[|buttons| - 1];
      if Fires(last.0, keys) then Some(last.1.action)
      else
        var r := LastFired(buttons[..|buttons| - 1], keys);
        assert forall i :: 0 <= i < |buttons| - 1 ==> buttons[..|buttons| - 1][i] == buttons[i];
        r
  }

  /** The smallest index of a page called `name`; unnamed pages never match. */
  function FirstNamed(pages: seq<Page>, name: string): (r: Option<nat>)
    ensures r.Some? ==> r.value < |pages| && pages[r.value].name == Some(name)
    ensures r.Some? ==> forall j :: 0 <= j < r.value ==> pages[j].name != Some(name)
    ensures r.None? ==> forall j :: 0 <= j < |pages| ==> pages[j].name != Some(name)
    decreases |pages|
  {
    if |pages| == 0 then None
    else if pages[0].name == Some(name) then Some(0)
    else
      match FirstNamed(pages[1..], name)
      case Some(k) => Some(k + 1)
      case None => None
  }

  /** The page a jump to `name` lands on, if the book has one. */
  function PageIndexByName(book: Option<Book>, name: string): (r: Option<nat>)
    ensures r.Some? ==> book.Some? && r.value < |book.value.pages| && book.value.pages[r.value].name == Some(name)
    ensures r.None? ==> book.None? || forall j :: 0 <= j < |book.value.pages| ==> book.value.pages[j].name != Some(name)
  {
    if book.Some? then FirstNamed(book.value.pages, name) else None
  }

  /** The state of the text system that navigation reads and writes. */
  datatype Session = Session(book: Option<Book>, pageIndex: nat, pageRead: u32, scores: seq<Score>)

  const Initial := Session(None, 0, 0, [])

  /** Before loading the index is 0; once a book with pages is loaded, the
      index designates one of them. */
  predicate Inv(s: Session)
  {
    && (s.book.None? ==> s.pageIndex == 0)
    && (s.book.Some? && |s.book.value.pages| > 0 ==> s.pageIndex < |s.book.value.pages|)
  }

  /** Every score records a count reached earlier: scores are recorded in
      strictly increasing order of pages read, none above the counter. */
  predicate ScoresRecordCounter(s: Session)
  {
    && (forall i, j :: 0 <= i < j < |s.scores| ==> s.scores[i].pageRead < s.scores[j].pageRead)
    && (forall i :: 0 <= i < |s.scores| ==> s.scores[i].pageRead <= s.pageRead)
  }

  /** The book is taken from the asset the first time it is available. */
  function Load(s: Session, asset: Option<Book>): (r: Session)
    ensures r.pageRead == s.pageRead && r.scores == s.scores
    ensures s.book.Some? ==> r == s
    ensures r.book.Some? <==> s.book.Some? || asset.Some?
  {
    if s.book.None? && asset.Some? then s.(book := asset, pageIndex := 0) else s
  }

  /** The action the pressed keys resolve to on the current page, after a
      final page has turned it into JumpToEnd; None when nothing fires. */
  function Resolve(s: Session, keys: set<KeyCode>): (r: Option<ButtonAction>)
    ensures r.Some? ==> PageAt(s.book, s.pageIndex).Some?
    ensures PageAt(s.book, s.pageIndex).Some? ==>
      var page := PageAt(s.book, s.pageIndex).value;
      var bs := ActiveButtons(s.book.value, page);
      && (r.None? <==> forall i :: 0 <= i < |bs| ==> !Fires(bs[i].0, keys))
      && (r.Some? && page.isFinal ==> r.value == JumpToEnd)
      && (r.Some? && !page.isFinal ==>
            exists i :: 0 <= i < |bs| && Fires(bs[i].0, keys) && r.value == bs[i].1.action
              && forall j :: i < j < |bs| ==> !Fires(bs[j].0, keys))
  {
    match PageAt(s.book, s.pageIndex)
    case None => None
    case Some(page) =>
      match LastFired(ActiveButtons(s.book.value, page), keys)
      case None => None
      case Some(action) => Some(if page.isFinal then JumpToEnd else action)
  }

  /** The effect of a resolved action on the session. */
  function Apply(s: Session, action: ButtonAction, now: Timestamp): (r: Session)
    ensures r.book == s.book && r.pageRead == s.pageRead
    ensures r.scores == (if action.JumpToEnd? then s.scores + [Score(now, s.pageRead)] else s.scores)
    ensures !action.NextPage? && Inv(s) ==> Inv(r)
  {
    match action
    case NextPage => s.(pageIndex := s.pageIndex + 1)
    case JumpToPage(target) =>
      (match PageIndexByName(s.book, target)
       case Some(j) => s.(pageIndex := j)
       case None => s)
    case JumpToEnd => s.(scores := s.scores + [Score(now, s.pageRead)])
  }

  /** Handling the keys does not panic: the counter has room for one more
      page, and a NextPage does not step past the last page. */
  predicate CanHandle(l: Session, keys: set<KeyCode>)
  {
    match Resolve(l, keys)
    case None => true
    case Some(action) =>
      l.pageRead < U32_MAX
      && (action.NextPage? ==> l.book.Some? && l.pageIndex + 1 < |l.book.value.pages|)
  }

  /** Count and apply the action the keys resolve to, if any. */
  function HandleInput(l: Session, keys: set<KeyCode>, now: Timestamp): (r: Session)
    requires CanHandle(l, keys)
    ensures r.book == l.book
    ensures r.pageRead == if Resolve(l, keys).Some? then l.pageRead + 1 else l.pageRead
    ensures Resolve(l, keys).None? ==> r == l
  {
    match Resolve(l, keys)
    case None => l
    case Some(action) => Apply(l.(pageRead := l.pageRead + 1), action, now)
  }

  /** A frame does not panic. */
  predicate CanStep(s: Session, asset: Option<Book>, keys: set<KeyCode>)
  {
    CanHandle(Load(s, asset), keys)
  }

  /** One frame: load the book if needed, then handle the pressed keys. */
  function Step(s: Session, asset: Option<Book>, keys: set<KeyCode>, now: Timestamp): (r: Session)
    requires CanStep(s, asset, keys)
    ensures s.book.Some? ==> r.book == s.book
    ensures s.pageRead as int <= r.pageRead as int <= s.pageRead as int + 1
    ensures s.scores <= r.scores && |r.scores| <= |s.scores| + 1
  {
    HandleInput(Load(s, asset), keys, now)
  }

  /** Loading happens once, puts the index on the first page and keeps the
      counter and the scores. */
  lemma LoadOnce(s: Session, asset: Option<Book>)
    ensures s.book.Some? ==> Load(s, asset) == s
    ensures s.book.None? && asset.Some? ==>
      var l := Load(s, asset);
      && l.book == asset && l.pageIndex == 0
      && l.pageRead == s.pageRead && l.scores == s.scores
      && (PageAt(l.book, l.pageIndex).Some? <==> |asset.value.pages| > 0)
  {
  }

  /** A frame in which no button fires changes nothing but the loaded book. */
  lemma QuietFrame(s: Session, asset: Option<Book>, keys: set<KeyCode>, now: Timestamp)
    requires Resolve(Load(s, asset), keys).None?
    ensures CanStep(s, asset, keys)
    ensures Step(s, asset, keys, now) == Load(s, asset)
    ensures s.book.Some? ==> Step(s, asset, keys, now) == s
    ensures var t := Step(s, asset, keys, now);
      t.pageRead == s.pageRead && t.scores == s.scores && (Inv(s) ==> t.pageIndex == s.pageIndex)
  {
  }

  /** Every resolved action counts exactly one page read, whatever it is,
      before it is applied. */
  lemma CounterOncePerAction(s: Session, asset: Option<Book>, keys: set<KeyCode>, now: Timestamp)
    requires CanStep(s, asset, keys)
    ensures var t := Step(s, asset, keys, now);
      t.pageRead == if Resolve(Load(s, asset), keys).Some? then s.pageRead + 1 else s.pageRead
  {
  }

  /** A jump to a name no page has only counts the page read. */
  lemma UnresolvedJump(s: Session, asset: Option<Book>, keys: set<KeyCode>, now: Timestamp, target: string)
    requires CanStep(s, asset, keys)
    requires Resolve(Load(s, asset), keys) == Some(JumpToPage(target))
    requires forall j :: 0 <= j < |Load(s, asset).book.value.pages| ==>
      Load(s, asset).book.value.pages[j].name != Some(target)
    ensures var l := Load(s, asset);
      Step(s, asset, keys, now) == l.(pageRead := l.pageRead + 1)
  {
  }

  /** A jump to an existing name lands on the first page with that name. */
  lemma ResolvedJump(s: Session, asset: Option<Book>, keys: set<KeyCode>, now: Timestamp, target: string, j: nat)
    requires CanStep(s, asset, keys)
    requires Resolve(Load(s, asset), keys) == Some(JumpToPage(target))
    requires j < |Load(s, asset).book.value.pages|
    requires Load(s, asset).book.value.pages[j].name == Some(target)
    ensures var t := Step(s, asset, keys, now);
      && t.pageIndex <= j
      && t.book.value.pages[t.pageIndex].name == Some(target)
      && (forall k :: 0 <= k < t.pageIndex ==> t.book.value.pages[k].name != Some(target))
      && t.scores == s.scores
  {
  }

  /** On a final page any firing button ends the run: one score holding the
      incremented counter is appended, and the index stays on that page. */
  lemma FinalPageEndsRun(s: Session, asset: Option<Book>, keys: set<KeyCode>, now: Timestamp)
    requires CanStep(s, asset, keys)
    requires var l := Load(s, asset);
      && PageAt(l.book, l.pageIndex).Some? && PageAt(l.book, l.pageIndex).value.isFinal
      && LastFired(ActiveButtons(l.book.value, PageAt(l.book, l.pageIndex).value), keys).Some?
    ensures var l := Load(s, asset);
      var t := Step(s, asset, keys, now);
      && t.scores == s.scores + [Score(now, s.pageRead + 1)]
      && t.pageRead == s.pageRead + 1
      && t.pageIndex == l.pageIndex && t.book == l.book
      && PageAt(t.book, t.pageIndex) == PageAt(l.book, l.pageIndex)
  {
  }

  /** Scores are append-only: a frame keeps every earlier score and adds at
      most one, which holds the counter as it stands after the frame. */
  lemma ScoresAppendOnly(s: Session, asset: Option<Book>, keys: set<KeyCode>, now: Timestamp)
    requires CanStep(s, asset, keys)
    ensures var t := Step(s, asset, keys, now);
      t.scores == s.scores || t.scores == s.scores + [Score(now, t.pageRead)]
  {
  }

  /** Handling the keys keeps the index in range and the scores in counter order. */
  lemma HandleKeepsInvariants(l: Session, keys: set<KeyCode>, now: Timestamp)
    requires CanHandle(l, keys)
    requires Inv(l) && ScoresRecordCounter(l)
    ensures Inv(HandleInput(l, keys, now)) && ScoresRecordCounter(HandleInput(l, keys, now))
  {
  }

  /** A frame keeps the index in range and the scores in counter order. */
  lemma StepKeepsInvariants(s: Session, asset: Option<Book>, keys: set<KeyCode>, now: Timestamp)
    requires CanStep(s, asset, keys)
    requires Inv(s) && ScoresRecordCounter(s)
    ensures Inv(Step(s, asset, keys, now)) && ScoresRecordCounter(Step(s, asset, keys, now))
  {
    HandleKeepsInvariants(Load(s, asset), keys, now);
  }

  /** The frames the host loop runs, one per update. */
  datatype Frame = Frame(asset: Option<Book>, keys: set<KeyCode>, now: Timestamp)

  /** None of the frames panics. */
  predicate RunSafe(s: Session, frames: seq<Frame>)
    decreases |frames|
  {
    |frames| == 0
    || (CanStep(s, frames[0].asset, frames[0].keys)
        && RunSafe(Step(s, frames[0].asset, frames[0].keys, frames[0].now), frames[1..]))
  }

  function Run(s: Session, frames: seq<Frame>): Session
    requires RunSafe(s, frames)
    decreases |frames|
  {
    if |frames| == 0 then s
    else Run(Step(s, frames[0].asset, frames[0].keys, frames[0].now), frames[1..])
  }

  /** Over any run the book, once loaded, stays; the counter never goes
      down; earlier scores are kept as a prefix; and both invariants hold. */
  lemma {:induction false} RunKeepsHistory(s: Session, frames: seq<Frame>)
    requires RunSafe(s, frames)
    requires Inv(s) && ScoresRecordCounter(s)
    ensures var t := Run(s, frames);
      && (s.book.Some? ==> t.book == s.book)
      && s.pageRead <= t.pageRead
      && s.scores <= t.scores
      && Inv(t) && ScoresRecordCounter(t)
    decreases |frames|
  {
    if |frames| > 0 {
      var f := frames[0];
      var next := Step(s, f.asset, f.keys, f.now);
      StepKeepsInvariants(s, f.asset, f.keys, f.now);
      CounterOncePerAction(s, f.asset, f.keys, f.now);
      ScoresAppendOnly(s, f.asset, f.keys, f.now);
      RunKeepsHistory(next, frames[1..]);
    }
  }

  /** The system starts with no book, on index 0, with nothing read or scored. */
  lemma InitialIsValid()
    ensures Inv(Initial) && ScoresRecordCounter(Initial)
    ensures PageAt(Initial.book, Initial.pageIndex).None?
  {
  }
}

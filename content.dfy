/** The content model: the parsed book that the text system navigates.
    Float, colour and date fields are not modelled. */
module Content {

  datatype Option<+T> = None | Some(value: T)

  /** The keys the text system distinguishes; every other key is `Other`. */
  datatype KeyCode = Space | Y | N | M | Other(code: nat)

  datatype TextAlign = Start | Center | End

  /** What pressing a button does. */
  datatype ButtonAction = NextPage | JumpToPage(target: string) | JumpToEnd

  /** One line of text on a page (its colour and size are left out). */
  datatype Line = Line(text: string, align: Option<TextAlign>)

  datatype Button = Button(text: string, action: ButtonAction)

  /** No name occurs twice among the entries. */
  predicate UniqueKeys(entries: seq<(string, Button)>)
  {
    forall i, j :: 0 <= i < j < |entries| ==> entries[i].0 != entries[j].0
  }

  /** A hash map from button name to button; the order of the entries is the
      map's iteration order. */
  type ButtonMap = entries: seq<(string, Button)> | UniqueKeys(entries) witness []

  datatype Page = Page(
    name: Option<string>,       // cross-reference target of JumpToPage
    isFinal: bool,              // last message before the scoreboard
    lines: seq<Line>,
    buttons: Option<ButtonMap>) // None: the book's default buttons apply

  datatype Book = Book(pages: seq<Page>, defaultButtons: ButtonMap)

  /** An instant read from the wall clock by the caller. */
  type Timestamp = int

  newtype u32 = x: int | 0 <= x < 0x1_0000_0000

  const U32_MAX: u32 := 0xFFFF_FFFF

  /** One completed playthrough: when it ended and how many pages were read. */
  datatype Score = Score(date: Timestamp, pageRead: u32)
}

# LD50 text system: navigation and scoring

This project models the navigation and scoring engine of the LD50 game's
`TextSystem` (a branching "visual novel" shown one page at a time) and proves
properties of it in Dafny.

The engine works on a parsed `Book`. A book is a sequence of pages plus a
default button map. Each page has an optional name, an `is_final` flag, lines
of text and an optional button map of its own. The system holds the book (once
it is loaded), the index of the current page, a `page_read` counter and a list
of scores. Once per frame, `update` does the following:

- It loads the book the first time the text asset is available.
- It picks the button map in force on the current page.
- It turns the pressed keys into an action. A button named "green" fires on
  Space or Y, "red" on N and "yellow" on M. The last firing entry in the map's
  iteration order wins.
- On a final page, it replaces the action with `JumpToEnd`.
- It counts one more page read.
- It applies the action: go to the next page, jump to the first page with a
  given name, or record a score.

Files:

- `content.dfy` (module `Content`) holds the data model. A `HashMap` of
  buttons becomes `ButtonMap`, a sequence of (name, button) pairs with unique
  names. Its order is the map's iteration order. Keys are a `KeyCode`
  datatype, and the keys pressed in a frame are a set of them. `page_read` is
  a `u32` newtype.
- `navigation.dfy` (module `Navigation`) holds the rules as functions on
  values. A `Session` holds the four fields navigation uses. `Step` is one
  frame. Lemmas about `Step` state the engine's invariants, and `Run`
  extends them to any sequence of frames.
- `engine.dfy` (module `Engine`) holds the class `TextSystem`. It has the
  fields `book`, `pageIndex`, `pageRead` and `scores`. Its methods `Update`
  (split into `LoadBook` and `HandleInputs`), `MoveNext`, `JumpTo` and
  `SpawnLeaderboard` change those fields in place. `PageByName` only reads
  them. Each method's `ensures` ties the new state to `Navigation.Step` or
  to one of its parts. The button scan and the page-name search are loops,
  proved against `LastFired` and `FirstNamed`.

The model follows this revision of `src/main.rs`:

- `scores` only grows: the code never removes, caps or sorts scores, and
  there is no restart: nothing resets `page_read` or clears `scores`.
- `JumpToEnd` leaves the index where it was. On a final page, every later
  press that fires a button records another score.
- Loading the book does not reset `page_read`, and nothing else does either.
- When several buttons fire, the last firing entry in iteration order wins.
- `NextPage` from the last page makes `setup_page` index past the end of
  `pages`, which panics. The model makes this a precondition (`CanStep`).
- Incrementing `page_read` (a `u32`) at its maximum also panics, as in a
  debug build. This is part of `CanStep` too.

## Model

| member | source | states |
|---|---|---|
| `Navigation.PageAt` | src/main.rs:212-219 | There is a current page iff a book is loaded and the index is below its page count, and then it is `pages[index]`. |
| `Engine.TextSystem.CurrentPage` | src/main.rs:212-219 | The object has a current page iff its `book` is loaded and `pageIndex` is below the page count, and then it is `pages[pageIndex]`. |
| `Navigation.ActiveButtons` | src/main.rs:172-176 | The active button map is the page's own map when it has one, and the book's default map otherwise. |
| `Navigation.Fires` | src/main.rs:180-192 | Defined by its body: the three press conditions of the scan. Its ensures say that only "green", "red" or "yellow" can fire, and only when one of Space, Y, N or M is pressed. `FiringRule` states the rule name by name. |
| `Navigation.FiringRule` | src/main.rs:180-192 | "green" fires iff Space or Y is pressed, "red" iff N, "yellow" iff M. A button with any other name never fires. |
| `Navigation.LastFired` | src/main.rs:178-193 | No action iff no entry fires. Otherwise the action is that of a firing entry with no firing entry after it in iteration order. |
| `Engine.ScanButtons` | src/main.rs:178-193 | The loop that overwrites `action` for each firing entry ends with exactly `LastFired` of the map. |
| `Navigation.FirstNamed` | src/main.rs:238-249 | Returns the smallest index whose page name equals the given name. Returns None iff no page has that name. Unnamed pages never match. |
| `Engine.TextSystem.PageByName` | src/main.rs:238-249 | The early-return search gives `FirstNamed` over the loaded book's pages, and None when no book is loaded. |
| `Navigation.PageIndexByName` | src/main.rs:238-249 | Defined by its body: the `if let Some(book)` guard around the search. A result is an index of the loaded book whose page has the name. None means no book is loaded or no page has the name. `FirstNamed` states which index is chosen. |
| `Navigation.Load` | src/main.rs:157-168 | Defined by its body: the load block. It keeps the counter and the scores, never replaces a loaded book, and leaves a book loaded iff one was loaded or the asset is there. `LoadOnce` states the rest. |
| `Navigation.Apply` | src/main.rs:202-206 | Defined by its body: the dispatch to `move_next`, `jump_to` and the score push (lines 222-235, 357-360). It keeps the book and the counter, and appends one `Score(now, counter)` exactly for `JumpToEnd`. Jumps and `JumpToEnd` keep the invariant. `UnresolvedJump`, `ResolvedJump` and `FinalPageEndsRun` state the effects frame by frame. |
| `Navigation.HandleInput` | src/main.rs:170-207 | Defined by its body: resolve, count, apply. It keeps the book, adds 1 to the counter iff an action resolves, and changes nothing when none does. `HandleKeepsInvariants` states that it keeps both invariants. |
| `Navigation.Step` | src/main.rs:150-207 | Defined by its body: `Load`, then `HandleInput`. It keeps a loaded book and raises the counter by at most 1. It keeps the earlier scores as a prefix and adds at most one. `QuietFrame`, `CounterOncePerAction`, `ScoresAppendOnly` and `StepKeepsInvariants` state the rest. |
| `Navigation.Resolve` | src/main.rs:171-198 | An action resolves only when there is a current page. On a current page, it resolves iff some entry of the active button map fires. On a final page the action is `JumpToEnd`. Otherwise it is the action of a firing entry with no firing entry after it in iteration order. |
| `Engine.TextSystem.constructor` | src/main.rs:116-147 | A new system has no book, index 0, counter 0 and no scores. The invariants hold. |
| `Engine.TextSystem.MoveNext` | src/main.rs:222-226 | The index becomes exactly old+1 and nothing else changes. Requires that the next page exists, because `setup_page` indexes it without a check. |
| `Engine.TextSystem.JumpTo` | src/main.rs:229-235 | With a name some page has, the index becomes `FirstNamed`'s result. With a missing name (or no book), the state is unchanged. |
| `Engine.TextSystem.SpawnLeaderboard` | src/main.rs:354-360 | Appends exactly one score holding the current counter. Everything else is unchanged. |
| `Engine.TextSystem.LoadBook` | src/main.rs:157-168 | The new state is `Load` of the old one. The asset's book is taken only while no book is loaded, and then the index goes to 0. |
| `Engine.TextSystem.HandleInputs` | src/main.rs:170-207 | The new state is `HandleInput` of the old one. If a button fires, the counter goes up by 1 and then the (possibly overridden) action is applied by `MoveNext`, `JumpTo` or `SpawnLeaderboard`. Otherwise nothing changes. |
| `Engine.TextSystem.Update` | src/main.rs:150-207 | The new state is `Step` of the old state, the asset, the pressed keys and the clock reading. The invariants are kept. |
| `Navigation.LoadOnce` | src/main.rs:157-168 | A loaded book is never replaced. The first load puts the index on 0 and keeps the counter and scores. After loading there is a current page iff the book has pages. |
| `Navigation.QuietFrame` | src/main.rs:195-207 | When no button fires, the frame is just `Load`: the counter and scores are unchanged. The index is unchanged too, given the invariant (before loading it is 0). Once a book is loaded, the whole state is unchanged. |
| `Navigation.CounterOncePerAction` | src/main.rs:195-204 | The counter goes up by exactly 1 when an action resolves, whatever its kind, and stays put otherwise. |
| `Navigation.UnresolvedJump` | src/main.rs:229-235 | A jump to a name no page has changes only the counter, which still goes up by 1. |
| `Navigation.ResolvedJump` | src/main.rs:229-249 | A jump to an existing name lands on the first page with that name. The scores are unchanged. |
| `Navigation.FinalPageEndsRun` | src/main.rs:196-205 | On a final page any firing button appends exactly one score, holding the incremented counter. Earlier scores are kept, and the index and current page stay the same. |
| `Navigation.ScoresAppendOnly` | src/main.rs:357-360 | A frame keeps the scores, or appends exactly one score holding the counter after the frame. |
| `Navigation.HandleKeepsInvariants` | src/main.rs:195-225 | Handling the keys keeps the index at 0 before loading and in range once a non-empty book is loaded. It also keeps scores in strictly increasing counter order, none above the counter. |
| `Navigation.StepKeepsInvariants` | src/main.rs:195-226 | A frame keeps the index at 0 before loading and in range once a non-empty book is loaded. It also keeps scores in strictly increasing counter order, none above the counter. |
| `Navigation.RunKeepsHistory` | src/main.rs:157-207 | Over any sequence of non-panicking frames, a loaded book stays and the counter never decreases. Earlier scores stay a prefix, and both invariants hold. |
| `Navigation.InitialIsValid` | src/main.rs:116-132 | The initial state satisfies both invariants and has no current page. |

## Left out

- JSON parsing of the book and the asset-handle lookup (`serde_json::from_str(...).unwrap()`, src/main.rs:158-160) are foreign calls. `Update` receives the asset as an already-built `Option<Book>`. None means the asset is not loaded yet. A malformed document (a panic in the code) is not modelled.
- The wall clock (`Utc::now()`) is a `now` parameter. Date formatting is left out.
- All Bevy UI work is left out: `clear`, `setup_page`'s node spawning, `spawn_background`, the leaderboard layout, `root_node` and `despawn_recursive`. It is rendering only. `setup_page` is kept only as the bounds requirement it imposes.
- Float and colour fields are left out: `line_spacing`, `Line.color`, `Line.size`, `Page.background_color`, and the font, default colours and sizes of `TextSystem`. So are `Book::default`, the button image handles and the content handle. None of them has logic beyond defaulting.
- `setup`, the ECS `update` wrapper and `main` are left out (src/main.rs:508-574). They are app, plugin and window wiring.
- Hashing is left out: the model fixes one iteration order per map, namely the order of its entries.
- `trace!` logging is left out.
- Engine.TextSystem.Update: a `u32` overflow of `page_read` is modelled as the debug-build panic (a precondition). A release build would wrap around to 0 instead.

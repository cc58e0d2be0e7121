/** The key-driven screens of the to-do application (the event loop of
    `main` in src/main.rs), without the drawing.

    The loop state is the current screen, the selected topic `on`, the
    selected item `onItem`, and the cached bounds `ubt` (number of topics)
    and `ub` (number of items of the selected topic). `Next` says what one key
    does; `Step` does it to a `Memory` object in place; `Run` is the loop. */
module Navigation {
  import opened Keys
  import opened Store
  import opened Ui

  datatype Screen =
    | Start                     // splash screen, outer loop
    | Topics                    // topic list
    | TopicsChord               // topic list, after one `g`
    | TopicText(typed: string)  // typing a new topic id
    | Items                     // item list of topic `on`
    | ItemsChord                // item list, after one `g`
    | ItemText(typed: string)   // typing a new item
    | Quit                      // `q` on the splash screen: save and end
    | Failed                    // a store error ended `main` with Err

  datatype Nav = Nav(screen: Screen, on: nat, onItem: nat, ubt: nat, ub: nat)

  datatype Session = Session(store: Snapshot, nav: Nav)

  const Initial: Nav := Nav(Start, 0, 0, 0, 0)

  predicate Ended(n: Nav) {
    n.screen.Quit? || n.screen.Failed?
  }

  /** `if on < ub - 1 { on += 1 }`: move down, stopping at the last entry.
      (`ub - 1` underflows for an empty list, hence the requires.) */
  function Down(sel: nat, bound: nat): (r: nat)
    requires bound >= 1
    ensures sel < bound ==> r < bound
    ensures sel <= r <= sel + 1
    ensures r == sel <==> sel + 1 >= bound
  {
    if sel < bound - 1 then sel + 1 else sel
  }

  /** `if on > 0 { on -= 1 }`: move up, stopping at the first entry. */
  function Up(sel: nat): (r: nat)
    ensures r <= sel && sel <= r + 1
    ensures r == sel <==> sel == 0
  {
    if sel > 0 then sel - 1 else sel
  }

  /** `c as u8 as char`: the low byte of the key code as a character. */
  function KeyChar(key: int): (c: char)
    ensures c as int < 256
    ensures c as int == key % 256
    ensures 0 <= key < 256 ==> c as int == key
  {
    (key % 256) as char
  }

  /** One key of the item text input other than ESC: backspace drops the last
      character (an empty buffer stays empty), any other key is appended. */
  function ItemTextKey(typed: string, key: int): (r: string)
    ensures key == REMOVE && typed == [] ==> r == []
    ensures key == REMOVE && typed != [] ==> r + [typed[|typed| - 1]] == typed
    ensures key != REMOVE ==> |r| == |typed| + 1 && r[..|typed|] == typed && r[|typed|] == KeyChar(key)
  {
    if key == REMOVE then
      if typed == [] then typed else typed[..|typed| - 1]
    else
      typed + [KeyChar(key)]
  }

  /** The TAB composition: read item `i`, delete it, and append
      `"1" + text` at the end of the same topic. */
  function Toggle(st: Snapshot, on: nat, i: nat): (r: Effect<()>)
    requires Addressable(st, on) && i < |st.data[st.idxs[on]]| ==> Sliceable(st.data[st.idxs[on]][i])
    ensures r.result.Ok? <==> Addressable(st, on) && i < |st.data[st.idxs[on]]|
    ensures r.result.Ok? ==>
      r.store.idxs == st.idxs && r.store.data.Keys == st.data.Keys &&
      (forall k :: k in st.data && k != st.idxs[on] ==> r.store.data[k] == st.data[k]) &&
      var items := st.data[st.idxs[on]];
      var after := r.store.data[st.idxs[on]];
      after == RemoveAt(items, i) + [Encode(Done, Text(items[i]))] &&
      |after| == |items|
    ensures r.result.Err? ==> r.store == st
    ensures WellIndexed(st) ==> WellIndexed(r.store)
  {
    var item := AccessItemSpec(st, on, i);
    if item.Err? then
      Effect(Err(item.error), st)
    else
      var gone := DeleteItemSpec(st, on, i);
      AddItemSpec(gone.store, on, Encode(Done, Text(item.value)))
  }

  /** Every item of topic `on` can have its status character cut off, as
      `display_items` does to each item it draws. */
  predicate ItemsSliceable(st: Snapshot, on: nat) {
    Addressable(st, on) ==>
      forall j :: 0 <= j < |st.data[st.idxs[on]]| ==> Sliceable(st.data[st.idxs[on]][j])
  }

  /** The keys that make the source panic (or, for SELECT on a topic that is
      not a key, read undefined memory) in the current state. SELECT also
      redraws the item list, which cuts the first character off every item
      of the topic. */
  predicate Panics(s: Session, key: int): (p: bool)
    ensures p ==>
      (s.nav.screen == Topics && key in {DOWN, BG, SELECT}) ||
      (s.nav.screen == Items && key in {DOWN, BG, DELETE, TAB})
    ensures p && key != SELECT && key != TAB ==>
      (if s.nav.screen == Topics then s.nav.ubt else s.nav.ub) == 0 || key == DELETE
  {
    var st, n := s.store, s.nav;
    match n.screen
    case Topics =>
      ((key == DOWN || key == BG) && n.ubt == 0) ||
      (key == SELECT && (!Addressable(st, n.on) || !ItemsSliceable(st, n.on)))
    case Items =>
      ((key == DOWN || key == BG) && n.ub == 0) ||
      (key == DELETE && Addressable(st, n.on) && n.onItem >= |st.data[st.idxs[n.on]]|) ||
      (key == TAB && Addressable(st, n.on) && n.onItem < |st.data[st.idxs[n.on]]| &&
       !Sliceable(st.data[st.idxs[n.on]][n.onItem]))
    case _ => false
  }

  /** One key on the topic list. Only DELETE touches the store; SELECT
      opens the item list of the selected topic at its first item; a
      refused delete ends the loop with an error. */
  function NextTopics(s: Session, key: int): (r: Session)
    requires s.nav.screen == Topics && !Panics(s, key)
    ensures key != DELETE ==> r.store == s.store
    ensures r.nav.screen == Items <==> key == SELECT
    ensures r.nav.screen == Items ==>
      r.nav.on == s.nav.on && r.nav.onItem == 0 && r.nav.ub == |s.store.data[s.store.idxs[s.nav.on]]|
    ensures r.nav.screen == Failed <==> key == DELETE && s.nav.on >= |s.store.idxs|
    ensures r.nav.screen == Start <==> key == ESC || key == EXIT
    ensures WellIndexed(s.store) ==> WellIndexed(r.store)
  {
    var st, n := s.store, s.nav;
    if key == DOWN then s.(nav := n.(on := Down(n.on, n.ubt)))
    else if key == UP then s.(nav := n.(on := Up(n.on)))
    else if key == SG then s.(nav := n.(screen := TopicsChord))
    else if key == BG then s.(nav := n.(on := n.ubt - 1))
    else if key == SELECT then
      s.(nav := n.(screen := Items, ub := |st.data[st.idxs[n.on]]|, onItem := 0))
    else if key == APPEND then s.(nav := n.(screen := TopicText([])))
    else if key == DELETE then
      var e := DeleteTopicSpec(st, n.on);
      if e.result.Err? then s.(nav := n.(screen := Failed))
      else Session(e.store, n.(ubt := |e.store.idxs|, on := 0))
    else if key == ESC || key == EXIT then s.(nav := n.(screen := Start))
    else s
  }

  /** One key on the item list of topic `on`. Only TAB and DELETE touch
      the store, and neither changes the topic list; `on` is kept. */
  function NextItems(s: Session, key: int): (r: Session)
    requires s.nav.screen == Items && !Panics(s, key)
    ensures key != TAB && key != DELETE ==> r.store == s.store
    ensures r.store.idxs == s.store.idxs
    ensures r.nav.on == s.nav.on && r.nav.ubt == s.nav.ubt
    ensures r.nav.screen == Topics <==> key == ESC || key == EXIT
    ensures r.nav.screen == Failed <==>
      (key == TAB || key == DELETE) &&
      !(Addressable(s.store, s.nav.on) && s.nav.onItem < |s.store.data[s.store.idxs[s.nav.on]]|)
    ensures WellIndexed(s.store) ==> WellIndexed(r.store)
  {
    var st, n := s.store, s.nav;
    if key == APPEND then s.(nav := n.(screen := ItemText([])))
    else if key == TAB then
      var e := Toggle(st, n.on, n.onItem);
      if e.result.Err? then s.(nav := n.(screen := Failed))
      else Session(e.store, n)
    else if key == DELETE then
      var e := DeleteItemSpec(st, n.on, n.onItem);
      if e.result.Err? then s.(nav := n.(screen := Failed))
      else Session(e.store, n.(ub := |e.store.data[e.store.idxs[n.on]]|, onItem := 0))
    else if key == DOWN then s.(nav := n.(onItem := Down(n.onItem, n.ub)))
    else if key == UP then s.(nav := n.(onItem := Up(n.onItem)))
    else if key == SG then s.(nav := n.(screen := ItemsChord))
    else if key == BG then s.(nav := n.(onItem := n.ub - 1))
    else if key == ESC || key == EXIT then s.(nav := n.(screen := Topics))
    else s
  }

  /** What one key does to the store and the loop state. */
  function Next(s: Session, key: int): (r: Session)
    requires !Panics(s, key)
    ensures Ended(s.nav) ==> r == s
    ensures r.store != s.store ==> key in {DELETE, TAB, ESC}
    ensures r.nav.screen == Quit <==> s.nav.screen == Quit || (s.nav.screen == Start && key == QUIT)
    ensures WellIndexed(s.store) ==> WellIndexed(r.store)
  {
    var st, n := s.store, s.nav;
    match n.screen
    case Quit => s
    case Failed => s
    case Start =>
      if key == GO_TO_TODOS then s.(nav := n.(screen := Topics, ubt := |st.idxs|))
      else if key == QUIT then s.(nav := n.(screen := Quit))
      else s
    case Topics => NextTopics(s, key)
    case TopicsChord =>
      s.(nav := n.(screen := Topics, on := if key == SG then 0 else n.on))
    case TopicText(typed) =>
      if key == ESC then
        var e := AddTopicSpec(st, typed);
        if e.result.Err? then s.(nav := n.(screen := Failed))
        else Session(e.store, n.(screen := Topics, ubt := |e.store.idxs|, on := 0))
      else
        s.(nav := n.(screen := TopicText(typed + [KeyChar(key)])))
    case Items => NextItems(s, key)
    case ItemsChord =>
      s.(nav := n.(screen := Items, onItem := if key == SG then 0 else n.onItem))
    case ItemText(typed) =>
      if key == ESC then
        var e := AddItemSpec(st, n.on, Encode(Todo, typed));
        if e.result.Err? then s.(nav := n.(screen := Failed))
        else Session(e.store, n.(screen := Items, ub := |e.store.data[e.store.idxs[n.on]]|, onItem := 0))
      else
        s.(nav := n.(screen := ItemText(ItemTextKey(typed, key))))
  }

  /** A selection that is either 0 or a valid position. */
  predicate InRange(sel: nat, bound: nat) {
    sel == 0 || sel < bound
  }

  /** The loop invariant: the store is well indexed, the cached bounds equal
      the store's counts, and the selections are in range. */
  ghost predicate Consistent(s: Session) {
    var st, n := s.store, s.nav;
    WellIndexed(st) &&
    match n.screen
    case Start => InRange(n.on, |st.idxs|)
    case Topics => n.ubt == |st.idxs| && InRange(n.on, n.ubt)
    case TopicsChord => n.ubt == |st.idxs| && InRange(n.on, n.ubt)
    case TopicText(_) => n.ubt == |st.idxs| && InRange(n.on, n.ubt)
    case Quit => true
    case Failed => true
    case _ =>
      n.ubt == |st.idxs| && n.on < n.ubt &&
      n.ub == |st.data[st.idxs[n.on]]| && InRange(n.onItem, n.ub) &&
      ItemsSliceable(st, n.on)
  }

  lemma DeleteTopicKeepsConsistent(s: Session)
    requires Consistent(s) && s.nav.screen == Topics
    ensures Consistent(NextTopics(s, DELETE))
  {
    var e := DeleteTopicSpec(s.store, s.nav.on);
    assert WellIndexed(e.store);
  }

  lemma SelectKeepsConsistent(s: Session)
    requires Consistent(s) && s.nav.screen == Topics && !Panics(s, SELECT)
    ensures Consistent(NextTopics(s, SELECT))
  {
    assert s.nav.on < |s.store.idxs|;
  }

  lemma NextTopicsKeepsConsistent(s: Session, key: int)
    requires Consistent(s) && s.nav.screen == Topics && !Panics(s, key)
    ensures Consistent(NextTopics(s, key))
  {
    if key == DELETE {
      DeleteTopicKeepsConsistent(s);
    } else if key == SELECT {
      SelectKeepsConsistent(s);
    }
  }

  lemma TabKeepsConsistent(s: Session)
    requires Consistent(s) && s.nav.screen == Items && !Panics(s, TAB)
    ensures Consistent(NextItems(s, TAB))
  {
    var st, n := s.store, s.nav;
    if Addressable(st, n.on) && n.onItem < |st.data[st.idxs[n.on]]| {
      var e := Toggle(st, n.on, n.onItem);
      assert |e.store.data[st.idxs[n.on]]| == n.ub;
    }
  }

  lemma DeleteItemKeepsConsistent(s: Session)
    requires Consistent(s) && s.nav.screen == Items && !Panics(s, DELETE)
    ensures Consistent(NextItems(s, DELETE))
  {
    var e := DeleteItemSpec(s.store, s.nav.on, s.nav.onItem);
    assert e.store.idxs == s.store.idxs;
  }

  lemma NextItemsKeepsConsistent(s: Session, key: int)
    requires Consistent(s) && s.nav.screen == Items && !Panics(s, key)
    ensures Consistent(NextItems(s, key))
  {
    if key == TAB {
      TabKeepsConsistent(s);
    } else if key == DELETE {
      DeleteItemKeepsConsistent(s);
    }
  }

  lemma TextKeepsConsistent(s: Session, key: int)
    requires Consistent(s) && (s.nav.screen.TopicText? || s.nav.screen.ItemText?)
    ensures Consistent(Next(s, key))
  {
    if key == ESC && s.nav.screen.ItemText? {
      var e := AddItemSpec(s.store, s.nav.on, Encode(Todo, s.nav.screen.typed));
      assert e.store.idxs == s.store.idxs;
    }
  }

  /** Every key keeps the loop invariant. */
  lemma NextKeepsConsistent(s: Session, key: int)
    requires Consistent(s) && !Panics(s, key)
    ensures Consistent(Next(s, key))
  {
    match s.nav.screen
    case Topics => NextTopicsKeepsConsistent(s, key);
    case Items => NextItemsKeepsConsistent(s, key);
    case TopicText(_) => TextKeepsConsistent(s, key);
    case ItemText(_) => TextKeepsConsistent(s, key);
    case _ =>
  }

  /** Every key of `keys` can be pressed without a panic. */
  predicate Safe(s: Session, keys: seq<int>)
    decreases |keys|
  {
    keys == [] || (!Panics(s, keys[0]) && Safe(Next(s, keys[0]), keys[1..]))
  }

  /** The session after pressing `keys` in order. */
  function Replay(s: Session, keys: seq<int>): Session
    requires Safe(s, keys)
    decreases |keys|
  {
    if keys == [] then s else Replay(Next(s, keys[0]), keys[1..])
  }

  lemma {:induction false} ReplayKeepsConsistent(s: Session, keys: seq<int>)
    requires Consistent(s) && Safe(s, keys)
    ensures Consistent(Replay(s, keys))
    decreases |keys|
  {
    if keys != [] {
      NextKeepsConsistent(s, keys[0]);
      ReplayKeepsConsistent(Next(s, keys[0]), keys[1..]);
    }
  }

  /** Once `main` has returned, further keys change nothing. */
  lemma {:induction false} ReplayAfterEnd(s: Session, keys: seq<int>)
    requires Ended(s.nav)
    ensures Safe(s, keys) && Replay(s, keys) == s
    decreases |keys|
  {
    if keys != [] {
      ReplayAfterEnd(s, keys[1..]);
    }
  }

  /** On the item screens the invariant keeps every item of the selected
      topic sliceable, so the item-list redraw that follows an item key
      draws every item and TAB never panics. */
  lemma ItemScreensRedraw(s: Session)
    requires Consistent(s)
    requires s.nav.screen == Items || s.nav.screen == ItemsChord || s.nav.screen.ItemText?
    ensures ItemsSliceable(s.store, s.nav.on)
    ensures ItemLines(s.store, s.nav.on, s.nav.onItem).Lines?
    ensures |ItemLines(s.store, s.nav.on, s.nav.onItem).lines| == s.nav.ub
    ensures s.nav.screen == Items ==> !Panics(s, TAB)
  {
  }

  /** `g g` selects the first entry of the current list. */
  lemma ChordSelectsFirst(s: Session)
    requires s.nav.screen == Topics || s.nav.screen == Items
    ensures !Panics(s, SG) && !Panics(Next(s, SG), SG)
    ensures var t := Next(Next(s, SG), SG);
      t.store == s.store && t.nav.screen == s.nav.screen &&
      (if s.nav.screen == Topics then t.nav.on == 0 && t.nav.onItem == s.nav.onItem
       else t.nav.onItem == 0 && t.nav.on == s.nav.on)
  {
  }

  /** `g` followed by any other key consumes that key and changes nothing. */
  lemma ChordOtherKeyIsNoOp(s: Session, key: int)
    requires s.nav.screen == Topics || s.nav.screen == Items
    requires key != SG
    ensures !Panics(s, SG) && !Panics(Next(s, SG), key)
    ensures Next(Next(s, SG), key) == s
  {
  }

  /** In either list, down never moves past the last entry and up never moves
      above the first; `G` selects the last entry. */
  lemma SelectionKeys(s: Session)
    requires Consistent(s) && (s.nav.screen == Topics || s.nav.screen == Items)
    ensures var n := s.nav;
      var bound := if n.screen == Topics then |s.store.idxs| else n.ub;
      var sel := if n.screen == Topics then n.on else n.onItem;
      bound >= 1 ==>
        var down, up, last := Next(s, DOWN).nav, Next(s, UP).nav, Next(s, BG).nav;
        var dsel := if n.screen == Topics then down.on else down.onItem;
        var usel := if n.screen == Topics then up.on else up.onItem;
        var lsel := if n.screen == Topics then last.on else last.onItem;
        dsel < bound && (dsel == sel <==> sel == bound - 1) &&
        usel < bound && (usel == sel <==> sel == 0) &&
        lsel == bound - 1
  {
  }

  /** Adding or deleting a topic recomputes `ubt` from the store and selects
      the first topic; a refused topic id ends the loop with an error. */
  lemma TopicChangesReset(s: Session, key: int)
    requires Consistent(s)
    requires (s.nav.screen.TopicText? && key == ESC) || (s.nav.screen == Topics && key == DELETE)
    ensures var t := Next(s, key);
      if s.nav.screen.TopicText? then
        (s.nav.screen.typed in s.store.data <==> t.nav.screen == Failed) &&
        (t.nav.screen != Failed ==>
          t.store.idxs == s.store.idxs + [s.nav.screen.typed] &&
          t.nav == s.nav.(screen := Topics, ubt := |t.store.idxs|, on := 0))
      else
        (s.store.idxs == [] <==> t.nav.screen == Failed) &&
        (t.nav.screen != Failed ==>
          t.store.idxs == RemoveAt(s.store.idxs, s.nav.on) &&
          t.nav == s.nav.(ubt := |t.store.idxs|, on := 0))
  {
  }

  /** The topic text input appends every key but ESC, backspace included. */
  lemma {:induction false} TopicTextTakesEveryKey(s: Session, keys: seq<int>)
    requires s.nav.screen.TopicText?
    requires forall i :: 0 <= i < |keys| ==> keys[i] != ESC
    ensures Safe(s, keys)
    ensures Replay(s, keys) ==
      s.(nav := s.nav.(screen := TopicText(s.nav.screen.typed + seq(|keys|, i requires 0 <= i < |keys| => KeyChar(keys[i])))))
    decreases |keys|
  {
    if keys != [] {
      var t := Next(s, keys[0]);
      TopicTextTakesEveryKey(t, keys[1..]);
      var typed := s.nav.screen.typed;
      var chars := seq(|keys|, i requires 0 <= i < |keys| => KeyChar(keys[i]));
      var rest := seq(|keys| - 1, i requires 0 <= i < |keys| - 1 => KeyChar(keys[1..][i]));
      assert chars == [KeyChar(keys[0])] + rest;
      assert typed + chars == typed + [KeyChar(keys[0])] + rest;
    } else {
      assert s.nav.screen.typed + [] == s.nav.screen.typed;
    }
  }

  /** ESC in the item text input appends a to-do item with the typed text at
      the end of the selected topic and selects the first item. */
  lemma ItemTextCommits(s: Session)
    requires Consistent(s) && s.nav.screen.ItemText?
    ensures var t := Next(s, ESC);
      var topic := s.store.idxs[s.nav.on];
      var item := t.store.data[topic][|t.store.data[topic]| - 1];
      t.store.idxs == s.store.idxs &&
      t.store.data[topic] == s.store.data[topic] + [item] &&
      StatusOf(item) == Todo && Text(item) == s.nav.screen.typed &&
      t.nav == s.nav.(screen := Items, ub := s.nav.ub + 1, onItem := 0)
  {
  }

  /** TAB re-appends the selected item at the end of its topic, marked done
      with the same text; the count and the selection stay, and the done
      count goes up by one unless the item was already done. On an empty
      list TAB ends the loop with an error. */
  lemma TabMarksDone(s: Session)
    requires Consistent(s) && s.nav.screen == Items && !Panics(s, TAB)
    ensures var t := Next(s, TAB);
      var topic := s.store.idxs[s.nav.on];
      var items := s.store.data[topic];
      (s.nav.onItem < |items| <==> t.nav.screen != Failed) &&
      (t.nav.screen != Failed ==>
        var after := t.store.data[topic];
        var moved := after[|after| - 1];
        |after| == |items| && after[..|after| - 1] == RemoveAt(items, s.nav.onItem) &&
        StatusOf(moved) == Done && Text(moved) == Text(items[s.nav.onItem]) &&
        DoneCount(after) == DoneCount(items) + 1 - DoneBit(items[s.nav.onItem]) &&
        t.nav == s.nav)
  {
    var topic := s.store.idxs[s.nav.on];
    var items := s.store.data[topic];
    if s.nav.onItem < |items| {
      var i := s.nav.onItem;
      var t := Next(s, TAB);
      var after := t.store.data[topic];
      var moved := Encode(Done, Text(items[i]));
      assert after == RemoveAt(items, i) + [moved];
      DoneCountConcat(RemoveAt(items, i), [moved]);
      assert DoneCount([moved]) == 1 by {
        assert [moved][..0] == [];
      }
      DoneCountRemove(items, i);
      assert after[..|after| - 1] == RemoveAt(items, i);
    }
  }

  /** Deleting an item recomputes `ub` as the new item count and selects the
      first item; ESC or `e` goes back to the topic list with `on` kept. */
  lemma ItemDeleteAndExit(s: Session)
    requires Consistent(s) && s.nav.screen == Items && !Panics(s, DELETE)
    ensures var t := Next(s, DELETE);
      var topic := s.store.idxs[s.nav.on];
      t.store.idxs == s.store.idxs &&
      t.store.data[topic] == RemoveAt(s.store.data[topic], s.nav.onItem) &&
      t.nav == s.nav.(ub := s.nav.ub - 1, onItem := 0)
    ensures Next(s, ESC) == Next(s, EXIT) == s.(nav := s.nav.(screen := Topics))
  {
    var topic := s.store.idxs[s.nav.on];
    var t := Next(s, DELETE);
    var items := s.store.data[topic];
    assert t.store.data[topic] == RemoveAt(items, s.nav.onItem);
  }

  /** The TAB composition on the mutable store: `access_item`, then
      `delete_item` (which cannot fail once the access succeeded), then
      `add_item`. */
  method ToggleItem(mem: Memory, on: nat, i: nat) returns (r: Result<()>)
    requires Addressable(mem.View(), on) && i < |mem.data[mem.idxs[on]]| ==>
      Sliceable(mem.data[mem.idxs[on]][i])
    modifies mem
    ensures Effect(r, mem.View()) == Toggle(old(mem.View()), on, i)
  {
    var item := mem.AccessItem(on, i);
    if item.Err? {
      r := Err(item.error);
      return;
    }
    var gone := mem.DeleteItem(on, i);
    r := mem.AddItem(on, Encode(Done, Text(item.value)));
  }

  /** One iteration of the event loop: the key `key` read in state `n`. */
  method Step(mem: Memory, n: Nav, key: int) returns (m: Nav)
    requires !Panics(Session(mem.View(), n), key)
    modifies mem
    ensures Session(mem.View(), m) == Next(Session(old(mem.View()), n), key)
  {
    m := n;
    match n.screen {
      case Quit =>
      case Failed =>
      case Start =>
        if key == GO_TO_TODOS {
          m := n.(screen := Topics, ubt := |mem.idxs|);
        } else if key == QUIT {
          m := n.(screen := Quit);
        }
      case Topics =>
        if key == DOWN {
          m := n.(on := Down(n.on, n.ubt));
        } else if key == UP {
          m := n.(on := Up(n.on));
        } else if key == SG {
          m := n.(screen := TopicsChord);
        } else if key == BG {
          m := n.(on := n.ubt - 1);
        } else if key == SELECT {
          var ub := |mem.data[mem.idxs[n.on]]|;
          m := n.(screen := Items, ub := ub, onItem := 0);
        } else if key == APPEND {
          m := n.(screen := TopicText([]));
        } else if key == DELETE {
          var r := mem.DeleteTopic(n.on);
          if r.Err? {
            m := n.(screen := Failed);
          } else {
            m := n.(ubt := |mem.idxs|, on := 0);
          }
        } else if key == ESC || key == EXIT {
          m := n.(screen := Start);
        }
      case TopicsChord =>
        m := n.(screen := Topics, on := if key == SG then 0 else n.on);
      case TopicText(typed) =>
        if key == ESC {
          var r := mem.AddTopic(typed);
          if r.Err? {
            m := n.(screen := Failed);
          } else {
            m := n.(screen := Topics, ubt := |mem.idxs|, on := 0);
          }
        } else {
          m := n.(screen := TopicText(typed + [KeyChar(key)]));
        }
      case Items =>
        if key == APPEND {
          m := n.(screen := ItemText([]));
        } else if key == TAB {
          var r := ToggleItem(mem, n.on, n.onItem);
          if r.Err? {
            m := n.(screen := Failed);
          }
        } else if key == DELETE {
          var r := mem.DeleteItem(n.on, n.onItem);
          if r.Err? {
            m := n.(screen := Failed);
          } else {
            m := n.(ub := |mem.data[mem.idxs[n.on]]|, onItem := 0);
          }
        } else if key == DOWN {
          m := n.(onItem := Down(n.onItem, n.ub));
        } else if key == UP {
          m := n.(onItem := Up(n.onItem));
        } else if key == SG {
          m := n.(screen := ItemsChord);
        } else if key == BG {
          m := n.(onItem := n.ub - 1);
        } else if key == ESC || key == EXIT {
          m := n.(screen := Topics);
        }
      case ItemsChord =>
        m := n.(screen := Items, onItem := if key == SG then 0 else n.onItem);
      case ItemText(typed) =>
        if key == ESC {
          var r := mem.AddItem(n.on, Encode(Todo, typed));
          if r.Err? {
            m := n.(screen := Failed);
          } else {
            m := n.(screen := Items, ub := |mem.data[mem.idxs[n.on]]|, onItem := 0);
          }
        } else {
          m := n.(screen := ItemText(ItemTextKey(typed, key)));
        }
    }
  }

  /** The event loop over the keys `keys`, from the splash screen with the
      loaded store, until the keys run out or `main` returns. */
  method Run(mem: Memory, keys: seq<int>) returns (n: Nav)
    requires Safe(Session(mem.View(), Initial), keys)
    modifies mem
    ensures Session(mem.View(), n) == Replay(Session(old(mem.View()), Initial), keys)
    ensures WellIndexed(old(mem.View())) ==> Consistent(Session(mem.View(), n))
  {
    n := Initial;
    var i := 0;
    while i < |keys| && !Ended(n)
      invariant 0 <= i <= |keys|
      invariant Safe(Session(mem.View(), n), keys[i..])
      invariant Replay(Session(mem.View(), n), keys[i..]) == Replay(Session(old(mem.View()), Initial), keys)
    {
      assert keys[i..][1..] == keys[i + 1..];
      n := Step(mem, n, keys[i]);
      i := i + 1;
    }
    if i < |keys| {
      ReplayAfterEnd(Session(mem.View(), n), keys[i..]);
    }
    if WellIndexed(old(mem.View())) {
      ReplayKeepsConsistent(Session(old(mem.View()), Initial), keys);
    }
  }
}

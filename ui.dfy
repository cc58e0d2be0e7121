/** The decoding side of the item format and the two read-only views the
    to-do application draws from the store (the pure parts of src/ui.rs).

    An item is stored as one string: a status character ('0' to do, '1' done)
    followed directly by the item's text. */
module Ui {
  import opened Store

  datatype Status = Todo | Done | Unrecognised

  /** The status read from the first character of an item. */
  function StatusOf(item: string): (s: Status) {
    if |item| > 0 && item[0] == '0' then Todo
    else if |item| > 0 && item[0] == '1' then Done
    else Unrecognised
  }

  /** The check box drawn for a status. */
  function Checkbox(s: Status): (box: string)
    ensures |box| == 3 && box[0] == '[' && box[2] == ']'
  {
    match s
    case Todo => "[ ]"
    case Done => "[X]"
    case Unrecognised => "[?]"
  }

  /** The displayed check box of an item. An item that is empty, or whose
      first character is neither '0' nor '1', gets the unknown box. */
  function Glyph(item: string): (g: string)
    ensures g == "[ ]" <==> |item| > 0 && item[0] == '0'
    ensures g == "[X]" <==> |item| > 0 && item[0] == '1'
    ensures g == "[?]" <==> |item| == 0 || (item[0] != '0' && item[0] != '1')
  {
    Checkbox(StatusOf(item))
  }

  /** `&item[1..]` on a Rust string succeeds only when the item is not empty
      and its first character takes one UTF-8 byte (code point below 0x80). */
  predicate Sliceable(item: string) {
    |item| > 0 && item[0] as int < 0x80
  }

  /** The displayed text: the item without its status character. */
  function Text(item: string): (t: string)
    requires Sliceable(item)
    ensures |t| + 1 == |item|
    ensures forall i :: 0 <= i < |t| ==> t[i] == item[i + 1]
  {
    item[1..]
  }

  /** The stored form of an item with a known status (`format!("0{}", t)`
      and `format!("1{}", t)` in src/main.rs). Decoding it gives back the
      status and the text. */
  function Encode(s: Status, text: string): (item: string)
    requires s != Unrecognised
    ensures Sliceable(item)
    ensures StatusOf(item) == s && Text(item) == text
  {
    (if s == Todo then "0" else "1") + text
  }

  /** The other direction of the round trip: an item with a known status is
      the encoding of its status and text. */
  lemma EncodeDecoded(item: string)
    requires StatusOf(item) != Unrecognised
    ensures Sliceable(item)
    ensures Encode(StatusOf(item), Text(item)) == item
  {
    assert item == [item[0]] + item[1..];
  }

  /** The number of done items: those whose string starts with '1'. */
  function DoneCount(items: seq<string>): (m: nat)
    ensures m <= |items|
  {
    if items == [] then 0
    else DoneCount(items[..|items| - 1]) + DoneBit(items[|items| - 1])
  }

  function DoneBit(item: string): (b: nat)
    ensures b <= 1
  {
    if StatusOf(item) == Done then 1 else 0
  }

  /** Every item is done exactly when the count is the number of items, and
      none is exactly when the count is 0. */
  lemma {:induction false} DoneCountExtremes(items: seq<string>)
    ensures DoneCount(items) == |items| <==> forall i :: 0 <= i < |items| ==> StatusOf(items[i]) == Done
    ensures DoneCount(items) == 0 <==> forall i :: 0 <= i < |items| ==> StatusOf(items[i]) != Done
    decreases |items|
  {
    if items != [] {
      var front := items[..|items| - 1];
      DoneCountExtremes(front);
      assert forall i :: 0 <= i < |front| ==> front[i] == items[i];
    }
  }

  lemma {:induction false} DoneCountConcat(a: seq<string>, b: seq<string>)
    ensures DoneCount(a + b) == DoneCount(a) + DoneCount(b)
    decreases |b|
  {
    if b != [] {
      var b' := b[..|b| - 1];
      assert (a + b)[..|a + b| - 1] == a + b';
      DoneCountConcat(a, b');
    } else {
      assert a + b == a;
    }
  }

  /** Removing item `i` lowers the done count by one exactly when that item
      was done. */
  lemma {:induction false} DoneCountRemove(items: seq<string>, i: nat)
    requires i < |items|
    ensures DoneCount(RemoveAt(items, i)) + DoneBit(items[i]) == DoneCount(items)
    decreases |items|
  {
    var n := |items|;
    var front := items[..n - 1];
    var removed := RemoveAt(items, i);
    if i == n - 1 {
      assert removed == front;
    } else {
      DoneCountRemove(front, i);
      assert removed[..n - 2] == RemoveAt(front, i);
      assert removed[n - 2] == items[n - 1];
    }
  }

  /** One line of the topic list: done count, item count, topic id, and
      whether it is the selected line. */
  datatype TopicLine = TopicLine(done: nat, total: nat, id: string, highlighted: bool)

  /** The topic list as `display_topic_ids` draws it. Every listed id must be
      a key (the source unwraps the lookup). */
  function TopicLines(st: Snapshot, on: nat): (lines: seq<TopicLine>)
    requires forall k :: k in st.idxs ==> k in st.data
    ensures |lines| == |st.idxs|
    ensures forall i :: 0 <= i < |lines| ==>
      lines[i].id == st.idxs[i] &&
      lines[i].done == DoneCount(st.data[st.idxs[i]]) &&
      lines[i].done <= lines[i].total == |st.data[st.idxs[i]]|
    ensures forall i :: 0 <= i < |lines| ==> (lines[i].highlighted <==> i == on)
  {
    seq(|st.idxs|, i requires 0 <= i < |st.idxs| =>
      var items := st.data[st.idxs[i]];
      TopicLine(DoneCount(items), |items|, st.idxs[i], i == on))
  }

  /** One line of an item list: check box, text, whether it is selected. */
  datatype ItemLine = ItemLine(checkbox: string, text: string, highlighted: bool)

  /** The outcome of `display_items`: the lines, or the interface error. */
  datatype Shown = Lines(lines: seq<ItemLine>) | NotFound

  /** The item list of topic `onTopic` as `display_items` draws it. A
      position past the topic list, or an id that is not a key, is an error.
      Every item must be sliceable (the source slices each one). */
  function ItemLines(st: Snapshot, onTopic: nat, onItem: nat): (r: Shown)
    requires Addressable(st, onTopic) ==>
      forall j :: 0 <= j < |st.data[st.idxs[onTopic]]| ==> Sliceable(st.data[st.idxs[onTopic]][j])
    ensures r.Lines? <==> Addressable(st, onTopic)
    ensures r.Lines? ==>
      var items := st.data[st.idxs[onTopic]];
      |r.lines| == |items| &&
      forall i :: 0 <= i < |items| ==>
        r.lines[i].checkbox == Glyph(items[i]) &&
        items[i] != [] && items[i] == [items[i][0]] + r.lines[i].text &&
        (r.lines[i].highlighted <==> i == onItem)
  {
    if Addressable(st, onTopic) then
      var items := st.data[st.idxs[onTopic]];
      Lines(seq(|items|, i requires 0 <= i < |items| =>
        ItemLine(Glyph(items[i]), Text(items[i]), i == onItem)))
    else
      NotFound
  }

  /** An encoded item is shown with the check box of its status and its own
      text. */
  lemma ShowsEncoded(st: Snapshot, onTopic: nat, onItem: nat, i: nat, s: Status, text: string)
    requires Addressable(st, onTopic)
    requires forall j :: 0 <= j < |st.data[st.idxs[onTopic]]| ==> Sliceable(st.data[st.idxs[onTopic]][j])
    requires s != Unrecognised
    requires i < |st.data[st.idxs[onTopic]]| && st.data[st.idxs[onTopic]][i] == Encode(s, text)
    ensures ItemLines(st, onTopic, onItem).lines[i] == ItemLine(Checkbox(s), text, i == onItem)
  {
  }
}

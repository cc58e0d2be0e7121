/** The topic/item store of the to-do application (src/memory.rs).

    The store maps each topic id to its ordered list of item strings and keeps
    a separate list `idxs` of topic ids that fixes the display order. Every
    operation addresses a topic by its position in `idxs`. Each operation is
    specified once, as a function on a `Snapshot` value; the class `Memory`
    holds the two fields and updates them in place, and each of its methods
    ends in the state that the matching function describes. */
module Store {

  /** The single failure value every store operation reports
      (`MemoryError::Unknown`). */
  datatype Error = Unknown

  datatype Result<T> = Ok(value: T) | Err(error: Error)

  /** The store as a value: `data` maps topic ids to item strings, `idxs`
      lists topic ids in display order. */
  datatype Snapshot = Snapshot(data: map<string, seq<string>>, idxs: seq<string>)

  /** What an operation returns, together with the store it leaves behind. */
  datatype Effect<T> = Effect(result: Result<T>, store: Snapshot)

  predicate NoDup(s: seq<string>) {
    forall i, j :: 0 <= i < j < |s| ==> s[i] != s[j]
  }

  /** The store invariant: `idxs` lists every key of `data` exactly once. */
  ghost predicate WellIndexed(st: Snapshot) {
    NoDup(st.idxs) && forall k :: k in st.idxs <==> k in st.data
  }

  /** Position `on` names a topic that has an item list. */
  predicate Addressable(st: Snapshot, on: int) {
    0 <= on < |st.idxs| && st.idxs[on] in st.data
  }

  function RemoveAt(s: seq<string>, i: nat): (r: seq<string>)
    requires i < |s|
    ensures |r| == |s| - 1
    ensures forall j :: 0 <= j < i ==> r[j] == s[j]
    ensures forall j :: i <= j < |r| ==> r[j] == s[j + 1]
  {
    s[..i] + s[i + 1..]
  }

  /** The position of the first occurrence of `x` in `s`, as
      `Iterator::position` finds it. */
  function FirstIndex(s: seq<string>, x: string): (p: nat)
    requires x in s
    ensures p < |s| && s[p] == x
    ensures forall j :: 0 <= j < p ==> s[j] != x
  {
    if s[0] == x then 0 else 1 + FirstIndex(s[1..], x)
  }

  /** Without duplicates, the first occurrence of `s[i]` is `i` itself, and
      removing it leaves every other id exactly once. */
  lemma RemoveDistinct(s: seq<string>, i: nat)
    requires i < |s|
    ensures NoDup(s) ==> FirstIndex(s, s[i]) == i
    ensures NoDup(s) ==> NoDup(RemoveAt(s, i))
    ensures NoDup(s) ==> forall k :: k in RemoveAt(s, i) <==> k in s && k != s[i]
  {
    if NoDup(s) {
      var r := RemoveAt(s, i);
      forall k | k in s && k != s[i] ensures k in r {
        var j :| 0 <= j < |s| && s[j] == k;
        if j < i { assert r[j] == k; } else { assert r[j - 1] == k; }
      }
    }
  }

  /** `add_item(on, item)`: append `item` to the list of topic `idxs[on]`. */
  function AddItemSpec(st: Snapshot, on: nat, item: string): (r: Effect<()>)
    ensures r.result.Ok? <==> Addressable(st, on)
    ensures r.result.Ok? ==>
      r.store.idxs == st.idxs && r.store.data.Keys == st.data.Keys &&
      r.store.data[st.idxs[on]] == st.data[st.idxs[on]] + [item] &&
      forall k :: k in st.data && k != st.idxs[on] ==> r.store.data[k] == st.data[k]
    ensures r.result.Err? ==> r.store == st
    ensures WellIndexed(st) ==> WellIndexed(r.store)
  {
    if Addressable(st, on) then
      var topic := st.idxs[on];
      Effect(Ok(()), st.(data := st.data[topic := st.data[topic] + [item]]))
    else
      Effect(Err(Unknown), st)
  }

  /** `access_item(t, i)`: a copy of item `i` of topic `idxs[t]`. */
  function AccessItemSpec(st: Snapshot, t: nat, i: nat): (r: Result<string>)
    ensures r.Ok? <==> Addressable(st, t) && i < |st.data[st.idxs[t]]|
    ensures r.Ok? ==> r.value == st.data[st.idxs[t]][i]
  {
    if Addressable(st, t) && i < |st.data[st.idxs[t]]| then
      Ok(st.data[st.idxs[t]][i])
    else
      Err(Unknown)
  }

  /** `delete_item(t, i)`: remove and return item `i` of topic `idxs[t]`.
      `Vec::remove` panics on an index past the end, hence the requires. */
  function DeleteItemSpec(st: Snapshot, t: nat, i: nat): (r: Effect<string>)
    requires Addressable(st, t) ==> i < |st.data[st.idxs[t]]|
    ensures r.result.Ok? <==> Addressable(st, t)
    ensures r.result.Ok? ==>
      var items := st.data[st.idxs[t]];
      r.result.value == items[i] &&
      r.store.idxs == st.idxs && r.store.data.Keys == st.data.Keys &&
      |r.store.data[st.idxs[t]]| == |items| - 1 &&
      (forall j :: 0 <= j < i ==> r.store.data[st.idxs[t]][j] == items[j]) &&
      (forall j :: i <= j < |items| - 1 ==> r.store.data[st.idxs[t]][j] == items[j + 1]) &&
      forall k :: k in st.data && k != st.idxs[t] ==> r.store.data[k] == st.data[k]
    ensures r.result.Err? ==> r.store == st
    ensures WellIndexed(st) ==> WellIndexed(r.store)
  {
    if Addressable(st, t) then
      var topic := st.idxs[t];
      var items := st.data[topic];
      Effect(Ok(items[i]), st.(data := st.data[topic := RemoveAt(items, i)]))
    else
      Effect(Err(Unknown), st)
  }

  /** `add_topic(id)`: a new empty topic at the end of the order; an id that
      is already a key is refused. */
  function AddTopicSpec(st: Snapshot, id: string): (r: Effect<()>)
    ensures r.result.Ok? <==> id !in st.data
    ensures r.result.Ok? ==>
      r.store.idxs == st.idxs + [id] &&
      r.store.data.Keys == st.data.Keys + {id} && r.store.data[id] == [] &&
      forall k :: k in st.data ==> r.store.data[k] == st.data[k]
    ensures r.result.Err? ==> r.store == st
    ensures WellIndexed(st) ==> WellIndexed(r.store)
  {
    if id in st.data then
      Effect(Err(Unknown), st)
    else
      Effect(Ok(()), Snapshot(st.data[id := []], st.idxs + [id]))
  }

  /** `delete_topic(on)`: drop the key `idxs[on]` from `data` (whether or not
      it is there) and remove the first occurrence of that id from `idxs`. */
  function DeleteTopicSpec(st: Snapshot, on: nat): (r: Effect<()>)
    ensures r.result.Ok? <==> on < |st.idxs|
    ensures r.result.Ok? ==>
      r.store.data.Keys == st.data.Keys - {st.idxs[on]} &&
      (forall k :: k in r.store.data ==> r.store.data[k] == st.data[k]) &&
      r.store.idxs == RemoveAt(st.idxs, FirstIndex(st.idxs, st.idxs[on]))
    ensures r.result.Ok? && WellIndexed(st) ==> r.store.idxs == RemoveAt(st.idxs, on)
    ensures r.result.Err? ==> r.store == st
    ensures WellIndexed(st) ==> WellIndexed(r.store)
  {
    if on < |st.idxs| then
      var id := st.idxs[on];
      var p := FirstIndex(st.idxs, id);
      RemoveDistinct(st.idxs, on);
      Effect(Ok(()), Snapshot(st.data - {id}, RemoveAt(st.idxs, p)))
    else
      Effect(Err(Unknown), st)
  }

  /** The linear search `idxs.iter().position(|t| t == x)`. */
  method Position(s: seq<string>, x: string) returns (p: nat)
    requires x in s
    ensures p < |s| && s[p] == x
    ensures forall j :: 0 <= j < p ==> s[j] != x
  {
    p := 0;
    while s[p] != x
      invariant p < |s| && x in s[p..]
      invariant forall j :: 0 <= j < p ==> s[j] != x
      decreases |s| - p
    {
      assert s[p..] == [s[p]] + s[p + 1..];
      p := p + 1;
    }
  }

  /** The step of `deserialize` that lists the keys of the decoded map as the
      topic order. Map iteration order is unspecified, so any order may be
      chosen. */
  method KeyOrder(data: map<string, seq<string>>) returns (idxs: seq<string>)
    ensures NoDup(idxs)
    ensures forall k :: k in idxs <==> k in data
  {
    idxs := [];
    var rest := data.Keys;
    while rest != {}
      invariant rest <= data.Keys
      invariant NoDup(idxs)
      invariant forall k :: k in idxs <==> k in data && k !in rest
      decreases rest
    {
      var k :| k in rest;
      idxs := idxs + [k];
      rest := rest - {k};
    }
  }

  /** The mutable store. */
  class Memory {
    var data: map<string, seq<string>>
    var idxs: seq<string>

    function View(): Snapshot
      reads this
    {
      Snapshot(data, idxs)
    }

    ghost predicate Valid()
      reads this
    {
      WellIndexed(View())
    }

    /** `Memory::new`: an empty store. */
    constructor ()
      ensures View() == Snapshot(map[], [])
      ensures Valid()
    {
      data := map[];
      idxs := [];
    }

    /** `deserialize`, from the decoded map on: the map is kept and the order
        is synthesised from its keys. */
    constructor Load(decoded: map<string, seq<string>>)
      ensures data == decoded
      ensures Valid()
    {
      var order := KeyOrder(decoded);
      data := decoded;
      idxs := order;
    }

    method AddItem(on: nat, item: string) returns (r: Result<()>)
      modifies this
      ensures Effect(r, View()) == AddItemSpec(old(View()), on, item)
    {
      if on < |idxs| && idxs[on] in data {
        var topic := idxs[on];
        data := data[topic := data[topic] + [item]];
        r := Ok(());
      } else {
        r := Err(Unknown);
      }
    }

    method AccessItem(t: nat, i: nat) returns (r: Result<string>)
      ensures r == AccessItemSpec(View(), t, i)
    {
      if t < |idxs| && idxs[t] in data && i < |data[idxs[t]]| {
        r := Ok(data[idxs[t]][i]);
      } else {
        r := Err(Unknown);
      }
    }

    method DeleteItem(t: nat, i: nat) returns (r: Result<string>)
      requires Addressable(View(), t) ==> i < |data[idxs[t]]|
      modifies this
      ensures Effect(r, View()) == DeleteItemSpec(old(View()), t, i)
    {
      if t < |idxs| && idxs[t] in data {
        var topic := idxs[t];
        var items := data[topic];
        r := Ok(items[i]);
        data := data[topic := items[..i] + items[i + 1..]];
      } else {
        r := Err(Unknown);
      }
    }

    method AddTopic(id: string) returns (r: Result<()>)
      modifies this
      ensures Effect(r, View()) == AddTopicSpec(old(View()), id)
    {
      if id in data {
        r := Err(Unknown);
      } else {
        idxs := idxs + [id];
        data := data[id := []];
        r := Ok(());
      }
    }

    method DeleteTopic(on: nat) returns (r: Result<()>)
      modifies this
      ensures Effect(r, View()) == DeleteTopicSpec(old(View()), on)
    {
      if on < |idxs| {
        var topic := idxs[on];
        data := data - {topic};
        var p := Position(idxs, topic);
        assert p == FirstIndex(idxs, topic);
        idxs := idxs[..p] + idxs[p + 1..];
        r := Ok(());
      } else {
        r := Err(Unknown);
      }
    }
  }

  /** Applying `delete_item(t, 0)` `n` times. */
  function DeleteFirstRepeatedly(st: Snapshot, t: nat, n: nat): Snapshot
    requires Addressable(st, t) && n <= |st.data[st.idxs[t]]|
    decreases n
  {
    if n == 0 then st
    else DeleteFirstRepeatedly(DeleteItemSpec(st, t, 0).store, t, n - 1)
  }

  /** Deleting the first item `n` times drops exactly the first `n` items and
      touches nothing else; `n` = the item count empties the topic. */
  lemma {:induction false} DeleteFirstRepeatedlyDrops(st: Snapshot, t: nat, n: nat)
    requires Addressable(st, t) && n <= |st.data[st.idxs[t]]|
    ensures var after := DeleteFirstRepeatedly(st, t, n);
      after.idxs == st.idxs && after.data.Keys == st.data.Keys &&
      after.data[st.idxs[t]] == st.data[st.idxs[t]][n..] &&
      forall k :: k in st.data && k != st.idxs[t] ==> after.data[k] == st.data[k]
    decreases n
  {
    if n > 0 {
      var next := DeleteItemSpec(st, t, 0).store;
      var items := st.data[st.idxs[t]];
      assert next.data[st.idxs[t]] == items[1..];
      DeleteFirstRepeatedlyDrops(next, t, n - 1);
      assert items[1..][n - 1..] == items[n..];
    }
  }

  /** Adding the same topic id twice: the second call fails and leaves the
      store as the first call left it. */
  lemma AddTopicTwice(st: Snapshot, id: string)
    requires id !in st.data
    ensures var once := AddTopicSpec(st, id);
      once.result.Ok? &&
      AddTopicSpec(once.store, id).result.Err? &&
      AddTopicSpec(once.store, id).store == once.store
  {
  }

  /** Empty store, add topic "Work", add one to-do item, delete it: reading
      item 0 back then fails. */
  method WorkScenario() returns (r: Result<string>)
    ensures r == Err(Unknown)
  {
    var m := new Memory();
    var added := m.AddTopic("Work");
    assert m.idxs == ["Work"] && m.data["Work"] == [];
    added := m.AddItem(0, "0Buy milk");
    assert m.data["Work"] == ["0Buy milk"];
    var gone := m.DeleteItem(0, 0);
    assert gone == Ok("0Buy milk");
    assert m.data["Work"] == [];
    r := m.AccessItem(0, 0);
  }
}

/**
 Shortening a tool answer until its serialised form fits: the largest list is halved, again and again, at most forty
 times. The serialised size of a value is a parameter.
 */
module FitResponse {
  import opened JsonValues

  const MAX_HALVINGS := 40
  const TRUNCATED := "truncated"
  const NOTE_KEY := "truncated_note"
  const NOTE := Str("The answer was shortened to fit the size limit; narrow the query or page with offset.")

  // ---- Dictionaries in insertion order ----

  ghost predicate IsDict(f: Fields) {
    forall i, j :: 0 <= i < j < |f| ==> f[i].0 != f[j].0
  }

  /** Assignment to a key: in place if the key is there, at the end if not. */
  function Put(f: Fields, key: string, v: Json): Fields {
    if f == [] then [(key, v)]
    else if f[0].0 == key then [(key, v)] + f[1..]
    else [f[0]] + Put(f[1..], key, v)
  }

  /** Fields with other keys stay in place, and the only new field has the key. */
  ghost predicate OnlyKeyDiffers(f: Fields, g: Fields, key: string) {
    && |f| <= |g|
    && (forall i :: 0 <= i < |f| ==> g[i].0 == f[i].0 && (f[i].0 != key ==> g[i] == f[i]))
    && (forall i :: |f| <= i < |g| ==> g[i].0 == key)
  }

  lemma {:induction false} PutIs(f: Fields, key: string, v: Json)
    ensures OnlyKeyDiffers(f, Put(f, key, v), key)
    ensures (key, v) in Put(f, key, v)
  {
    if f == [] {
      assert Put(f, key, v)[0] == (key, v);
    } else if f[0].0 == key {
      assert Put(f, key, v)[0] == (key, v);
    } else {
      PutIs(f[1..], key, v);
      var r := Put(f, key, v);
      assert r[1..] == Put(f[1..], key, v);
      assert forall i :: 0 < i < |r| ==> r[i] == r[1..][i - 1];
      assert forall i :: 0 < i < |f| ==> f[i] == f[1..][i - 1];
      var k :| 0 <= k < |r[1..]| && r[1..][k] == (key, v);
      assert r[k + 1] == (key, v);
    }
  }

  lemma {:induction false} PutIsDict(f: Fields, key: string, v: Json)
    requires IsDict(f)
    ensures IsDict(Put(f, key, v))
  {
    if f != [] && f[0].0 != key {
      PutIsDict(f[1..], key, v);
      PutIs(f[1..], key, v);
    }
  }

  // ---- One halving ----

  predicate Halvable(v: Json) {
    v.List? && |v.items| > 1
  }

  predicate SomeHalvable(f: Fields) {
    exists i :: 0 <= i < |f| && Halvable(f[i].1)
  }

  ghost predicate IsLargest(f: Fields, size: Json -> nat, k: nat) {
    && k < |f| && Halvable(f[k].1)
    && (forall i :: 0 <= i < |f| && Halvable(f[i].1) ==> size(f[i].1) <= size(f[k].1))
    && (forall i :: 0 <= i < k && Halvable(f[i].1) ==> size(f[i].1) < size(f[k].1))
  }

  /** The first of the largest lists that can be halved. */
  function Largest(f: Fields, size: Json -> nat): (k: nat)
    requires SomeHalvable(f)
    ensures IsLargest(f, size, k)
  {
    var n := |f| - 1;
    if !SomeHalvable(f[..n]) then n
    else
      var k := Largest(f[..n], size);
      if Halvable(f[n].1) && size(f[n].1) > size(f[k].1) then n else k
  }

  function Half(v: Json): Json
    requires Halvable(v)
  {
    List(v.items[..|v.items| / 2])
  }

  function Halve(f: Fields, size: Json -> nat): Fields
    requires SomeHalvable(f)
  {
    var k := Largest(f, size);
    Put(f[k := (f[k].0, Half(f[k].1))], NOTE_KEY, NOTE)
  }

  // ---- The response ----

  function Shrink(f: Fields, size: Json -> nat, limit: int, halvings: nat): Fields
    decreases halvings
  {
    if halvings == 0 || size(Object(f)) <= limit || !SomeHalvable(f) then f
    else Shrink(Halve(f, size), size, limit, halvings - 1)
  }

  function AsFields(data: Json): Fields {
    if data.Object? then data.fields else [("rows", data)]
  }

  function Flagged(data: Json): Fields {
    Put(AsFields(data), TRUNCATED, Bool(true))
  }

  function Response(data: Json, size: Json -> nat, limit: int): Fields {
    if size(Object(AsFields(data))) <= limit then AsFields(data)
    else Shrink(Flagged(data), size, limit, MAX_HALVINGS)
  }

  method Fit(data: Json, size: Json -> nat, limit: int) returns (result: Fields)
    ensures result == Response(data, size, limit)
  {
    hide Put;
    hide SomeHalvable;
    result := AsFields(data);
    if size(Object(result)) <= limit {
      return;
    }
    result := Put(result, TRUNCATED, Bool(true));
    for step := 0 to MAX_HALVINGS
      invariant Shrink(Flagged(data), size, limit, MAX_HALVINGS) == Shrink(result, size, limit, MAX_HALVINGS - step)
    {
      if size(Object(result)) <= limit {
        break;
      }
      if !SomeHalvable(result) {
        break;
      }
      var k := Largest(result, size);
      var half := result[k].1.items[..Max(1, |result[k].1.items| / 2)];
      result := result[k := (result[k].0, List(half))];
      result := Put(result, NOTE_KEY, NOTE);
    }
  }

  function Max(a: int, b: int): int {
    if a >= b then a else b
  }

  // ---- What is kept ----

  predicate IsFlag(key: string) {
    key == TRUNCATED || key == NOTE_KEY
  }

  /** A list becomes a prefix that is empty only if the list was; anything else stays as it is. */
  ghost predicate Shortened(v: Json, w: Json) {
    if v.List? then w.List? && w.items <= v.items && (v.items != [] ==> w.items != [])
    else w == v
  }

  /** Every field keeps its key and place, the flags aside; the only new fields are flags. */
  ghost predicate Keeps(f: Fields, g: Fields) {
    && |f| <= |g|
    && (forall i :: 0 <= i < |f| ==> g[i].0 == f[i].0)
    && (forall i :: 0 <= i < |f| && !IsFlag(f[i].0) ==> Shortened(f[i].1, g[i].1))
    && (forall i :: |f| <= i < |g| ==> IsFlag(g[i].0))
  }

  ghost predicate IsFlagged(f: Fields) {
    (TRUNCATED, Bool(true)) in f
  }

  lemma PutNoteKeeps(f: Fields)
    ensures Keeps(f, Put(f, NOTE_KEY, NOTE))
    ensures IsDict(f) ==> IsDict(Put(f, NOTE_KEY, NOTE))
    ensures IsFlagged(f) ==> IsFlagged(Put(f, NOTE_KEY, NOTE))
  {
    PutIs(f, NOTE_KEY, NOTE);
    if IsDict(f) {
      PutIsDict(f, NOTE_KEY, NOTE);
    }
    if IsFlagged(f) {
      var i :| 0 <= i < |f| && f[i] == (TRUNCATED, Bool(true));
      assert Put(f, NOTE_KEY, NOTE)[i] == f[i];
    }
  }

  lemma HalveKeeps(f: Fields, size: Json -> nat)
    requires SomeHalvable(f)
    ensures Keeps(f, Halve(f, size))
    ensures IsDict(f) ==> IsDict(Halve(f, size))
    ensures IsFlagged(f) ==> IsFlagged(Halve(f, size))
  {
    hide Put;
    hide SomeHalvable;
    var k := Largest(f, size);
    var g := f[k := (f[k].0, Half(f[k].1))];
    if IsFlagged(f) {
      var i :| 0 <= i < |f| && f[i] == (TRUNCATED, Bool(true));
      assert g[i] == f[i];
    }
    assert Keeps(f, g);
    PutNoteKeeps(g);
    KeepsTransitive(f, g, Halve(f, size));
  }

  lemma KeepsTransitive(f: Fields, g: Fields, h: Fields)
    requires Keeps(f, g) && Keeps(g, h)
    ensures Keeps(f, h)
  {
  }

  lemma {:induction false} ShrinkKeeps(f: Fields, size: Json -> nat, limit: int, n: nat)
    ensures Keeps(f, Shrink(f, size, limit, n))
    ensures IsDict(f) ==> IsDict(Shrink(f, size, limit, n))
    ensures IsFlagged(f) ==> IsFlagged(Shrink(f, size, limit, n))
    decreases n
  {
    hide IsDict;
    hide Put;
    if n > 0 && size(Object(f)) > limit && SomeHalvable(f) {
      HalveKeeps(f, size);
      ShrinkKeeps(Halve(f, size), size, limit, n - 1);
      KeepsTransitive(f, Halve(f, size), Shrink(f, size, limit, n));
    }
  }

  /** The answer is whole, or flagged and shortened field by field. */
  lemma ResponseKeeps(data: Json, size: Json -> nat, limit: int)
    requires data.Object? ==> IsDict(data.fields)
    ensures IsDict(Response(data, size, limit))
    ensures Keeps(AsFields(data), Response(data, size, limit))
    ensures if size(Object(AsFields(data))) <= limit then Response(data, size, limit) == AsFields(data)
      else IsFlagged(Response(data, size, limit))
  {
    hide Put;
    hide Shrink;
    if size(Object(AsFields(data))) > limit {
      PutIs(AsFields(data), TRUNCATED, Bool(true));
      PutIsDict(AsFields(data), TRUNCATED, Bool(true));
      ShrinkKeeps(Flagged(data), size, limit, MAX_HALVINGS);
      assert Keeps(AsFields(data), Flagged(data));
      KeepsTransitive(AsFields(data), Flagged(data), Response(data, size, limit));
    }
  }

  // ---- When the forty halvings are enough ----

  function Log2(n: nat): nat {
    if n <= 1 then 0 else 1 + Log2(n / 2)
  }

  /** How often a field can be halved. The note is overwritten by the first halving. */
  function FieldHalvings(field: (string, Json)): nat {
    if field.0 != NOTE_KEY && field.1.List? then Log2(|field.1.items|) else 0
  }

  function TotalHalvings(f: Fields): nat {
    if f == [] then 0 else FieldHalvings(f[0]) + TotalHalvings(f[1..])
  }

  /** The halvings that leave no list of two or more, counting one that falls on a list under the note's own key. */
  function Needed(f: Fields, size: Json -> nat): nat {
    TotalHalvings(f) + if SomeHalvable(f) && f[Largest(f, size)].0 == NOTE_KEY then 1 else 0
  }

  lemma {:induction false} TotalOfUpdate(f: Fields, i: nat, field: (string, Json))
    requires i < |f|
    ensures TotalHalvings(f[i := field]) == TotalHalvings(f) - FieldHalvings(f[i]) + FieldHalvings(field)
  {
    if i == 0 {
      assert f[i := field][1..] == f[1..];
    } else {
      TotalOfUpdate(f[1..], i - 1, field);
      assert f[i := field][1..] == f[1..][i - 1 := field];
    }
  }

  lemma {:induction false} TotalOfNote(f: Fields)
    ensures TotalHalvings(Put(f, NOTE_KEY, NOTE)) == TotalHalvings(f)
  {
    if f == [] {
      assert Put(f, NOTE_KEY, NOTE)[1..] == [];
    } else if f[0].0 == NOTE_KEY {
      assert Put(f, NOTE_KEY, NOTE)[1..] == f[1..];
    } else {
      assert Put(f, NOTE_KEY, NOTE)[1..] == Put(f[1..], NOTE_KEY, NOTE);
      TotalOfNote(f[1..]);
    }
  }

  lemma {:induction false} TotalAtLeast(f: Fields, i: nat)
    requires i < |f|
    ensures TotalHalvings(f) >= FieldHalvings(f[i])
  {
    if i > 0 {
      TotalAtLeast(f[1..], i - 1);
    }
  }

  lemma {:induction false} NothingToHalve(f: Fields)
    requires !SomeHalvable(f)
    ensures TotalHalvings(f) == 0
  {
    if f != [] {
      assert !Halvable(f[0].1);
      assert !SomeHalvable(f[1..]);
      NothingToHalve(f[1..]);
    }
  }

  lemma NoteIsNotHalved(g: Fields, size: Json -> nat)
    requires IsDict(g) && SomeHalvable(Put(g, NOTE_KEY, NOTE))
    ensures Put(g, NOTE_KEY, NOTE)[Largest(Put(g, NOTE_KEY, NOTE), size)].0 != NOTE_KEY
  {
    hide Put;
    hide SomeHalvable;
    var h := Put(g, NOTE_KEY, NOTE);
    PutIs(g, NOTE_KEY, NOTE);
    PutIsDict(g, NOTE_KEY, NOTE);
    var i :| 0 <= i < |h| && h[i] == (NOTE_KEY, NOTE);
    assert h[Largest(h, size)] != h[i];
  }

  /** After a halving the note is a text, so it is never the largest list again. */
  lemma HalveUsesOne(f: Fields, size: Json -> nat)
    requires IsDict(f) && SomeHalvable(f)
    ensures Needed(f, size) >= 1
    ensures Needed(Halve(f, size), size) == Needed(f, size) - 1
  {
    hide Put;
    hide SomeHalvable;
    var k := Largest(f, size);
    var half := (f[k].0, Half(f[k].1));
    var g, h := f[k := half], Halve(f, size);
    TotalOfUpdate(f, k, half);
    TotalOfNote(g);
    TotalAtLeast(f, k);
    if SomeHalvable(h) {
      NoteIsNotHalved(g, size);
    }
  }

  /** If the result is too large, every list is down to one element exactly when the halvings sufficed. */
  lemma {:induction false} ShrinkExactly(f: Fields, size: Json -> nat, limit: int, n: nat)
    requires IsDict(f)
    decreases n
    ensures size(Object(Shrink(f, size, limit, n))) > limit ==>
      (!SomeHalvable(Shrink(f, size, limit, n)) <==> Needed(f, size) <= n)
  {
    hide Halve;
    hide IsDict;
    hide Put;
    if size(Object(f)) > limit {
      if !SomeHalvable(f) {
        NothingToHalve(f);
      } else {
        HalveUsesOne(f, size);
        HalveKeeps(f, size);
        if n > 0 {
          ShrinkExactly(Halve(f, size), size, limit, n - 1);
        }
      }
    }
  }

  lemma ResponseFitsOrIsMinimal(data: Json, size: Json -> nat, limit: int)
    requires data.Object? ==> IsDict(data.fields)
    ensures size(Object(Response(data, size, limit))) <= limit
      || (!SomeHalvable(Response(data, size, limit)) <==> Needed(Flagged(data), size) <= MAX_HALVINGS)
  {
    hide Put;
    hide Shrink;
    hide SomeHalvable;
    hide Needed;
    PutIsDict(AsFields(data), TRUNCATED, Bool(true));
    ShrinkExactly(Flagged(data), size, limit, MAX_HALVINGS);
  }

  // ---- Nothing is cut without need ----

  function HalveTimes(f: Fields, size: Json -> nat, n: nat): Fields
    decreases n
  {
    if n == 0 || !SomeHalvable(f) then f else HalveTimes(Halve(f, size), size, n - 1)
  }

  /** `m` is the first number of halvings after which the answer fits, no list can be halved, or the budget is spent. */
  ghost predicate IsFirstStop(f: Fields, size: Json -> nat, limit: int, n: nat, m: nat) {
    && m <= n
    && (forall j :: 0 <= j < m ==>
      size(Object(HalveTimes(f, size, j))) > limit && SomeHalvable(HalveTimes(f, size, j)))
    && (m == n || size(Object(HalveTimes(f, size, m))) <= limit || !SomeHalvable(HalveTimes(f, size, m)))
  }

  /** The answer is halved exactly until it stops being both too large and divisible. */
  lemma {:induction false} FewestHalvings(f: Fields, size: Json -> nat, limit: int, n: nat)
    decreases n
    ensures exists m :: IsFirstStop(f, size, limit, n, m) && Shrink(f, size, limit, n) == HalveTimes(f, size, m)
  {
    hide Halve;
    hide SomeHalvable;
    if n == 0 || size(Object(f)) <= limit || !SomeHalvable(f) {
      assert IsFirstStop(f, size, limit, n, 0);
    } else {
      var g := Halve(f, size);
      FewestHalvings(g, size, limit, n - 1);
      var m: nat :| IsFirstStop(g, size, limit, n - 1, m) && Shrink(g, size, limit, n - 1) == HalveTimes(g, size, m);
      forall j | 0 <= j < m + 1
        ensures size(Object(HalveTimes(f, size, j))) > limit && SomeHalvable(HalveTimes(f, size, j))
      {
        if j > 0 {
          assert HalveTimes(f, size, j) == HalveTimes(g, size, j - 1);
        }
      }
      assert HalveTimes(f, size, m + 1) == HalveTimes(g, size, m);
      assert IsFirstStop(f, size, limit, n, m + 1);
    }
  }
}

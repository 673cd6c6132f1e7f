/** A modifier set as the middleware holds it: a plain JavaScript object from
    directive name to directive value. Its string keys keep insertion order, which
    is what the request hash sees, so the object is a sequence of (key, value)
    pairs; `Put` is the assignment `obj[key] = value`. */
module Modifiers {

  type Modifiers = seq<(string, string)>

  function Keys(m: Modifiers): (ks: seq<string>)
    ensures |ks| == |m|
    ensures forall i :: 0 <= i < |m| ==> ks[i] == m[i].0
  {
    if m == [] then [] else [m[0].0] + Keys(m[1..])
  }

  /** No key appears twice: every JavaScript object has this shape. */
  predicate DistinctKeys(m: Modifiers)
  {
    forall i, j :: 0 <= i < j < |m| ==> m[i].0 != m[j].0
  }

  /** The object's contents, forgetting key order. */
  function ToMap(m: Modifiers): map<string, string>
  {
    if m == [] then map[] else ToMap(m[1..])[m[0].0 := m[0].1]
  }

  /** `obj[key] = value`: an existing key keeps its position and takes the new
      value; a new key is appended at the end (see `PutKeys`, `PutToMap`). */
  function Put(m: Modifiers, key: string, value: string): (r: Modifiers)
    ensures |r| == |m| || |r| == |m| + 1
    ensures |r| == |m| + 1 ==> r[|m|] == (key, value)
  {
    if m == [] then [(key, value)]
    else if m[0].0 == key then [(key, value)] + m[1..]
    else [m[0]] + Put(m[1..], key, value)
  }

  /** Assignment keeps the key order of the object and appends a new key last. */
  lemma {:induction false} PutKeys(m: Modifiers, key: string, value: string)
    ensures key in Keys(m) ==> Keys(Put(m, key, value)) == Keys(m)
    ensures key !in Keys(m) ==> Keys(Put(m, key, value)) == Keys(m) + [key]
  {
    if m != [] && m[0].0 != key {
      PutKeys(m[1..], key, value);
      var rest := Put(m[1..], key, value);
      assert Keys(m) == [m[0].0] + Keys(m[1..]);
      assert ([m[0]] + rest)[1..] == rest;
    } else if m != [] {
      assert ([(key, value)] + m[1..])[1..] == m[1..];
    }
  }

  /** Assignment keeps an object free of repeated keys. */
  lemma PutDistinct(m: Modifiers, key: string, value: string)
    requires DistinctKeys(m)
    ensures DistinctKeys(Put(m, key, value))
  {
    var r := Put(m, key, value);
    PutKeys(m, key, value);
    assert forall i :: 0 <= i < |r| ==> r[i].0 == Keys(r)[i];
    assert forall i :: 0 <= i < |m| ==> m[i].0 == Keys(m)[i];
  }

  /** Assignment updates the contents like a map update. */
  lemma {:induction false} PutToMap(m: Modifiers, key: string, value: string)
    ensures ToMap(Put(m, key, value)) == ToMap(m)[key := value]
  {
    if m != [] && m[0].0 != key {
      PutToMap(m[1..], key, value);
      var rest := Put(m[1..], key, value);
      assert ([m[0]] + rest)[1..] == rest;
    } else if m != [] {
      assert ([(key, value)] + m[1..])[1..] == m[1..];
    }
  }

  /** The object obtained by assigning the entries one after another, left to
      right, to an empty object. */
  function AssignAll(entries: seq<(string, string)>): (r: Modifiers)
    ensures |r| <= |entries|
    ensures entries != [] ==> |r| >= 1
  {
    if entries == [] then []
    else
      var last := entries[|entries| - 1];
      Put(AssignAll(entries[..|entries| - 1]), last.0, last.1)
  }

  /** A key is present exactly when some entry assigns it. */
  lemma {:induction false} AssignAllHas(entries: seq<(string, string)>, key: string)
    ensures (key in ToMap(AssignAll(entries)))
              <==> (exists i :: 0 <= i < |entries| && entries[i].0 == key)
  {
    if entries != [] {
      var n := |entries| - 1;
      var init := entries[..n];
      AssignAllHas(init, key);
      PutToMap(AssignAll(init), entries[n].0, entries[n].1);
      if exists i :: 0 <= i < |entries| && entries[i].0 == key {
        var i :| 0 <= i < |entries| && entries[i].0 == key;
        if i < n {
          assert init[i].0 == key;
        }
      }
      if exists i :: 0 <= i < n && init[i].0 == key {
        var i :| 0 <= i < n && init[i].0 == key;
        assert entries[i].0 == key;
      }
    }
  }

  /** An entry that no later entry overrides gives its key's value. */
  lemma {:induction false} AssignAllValue(entries: seq<(string, string)>, key: string, i: nat)
    requires i < |entries| && entries[i].0 == key
    requires forall j :: i < j < |entries| ==> entries[j].0 != key
    ensures key in ToMap(AssignAll(entries)) && ToMap(AssignAll(entries))[key] == entries[i].1
  {
    var n := |entries| - 1;
    var init := entries[..n];
    PutToMap(AssignAll(init), entries[n].0, entries[n].1);
    if i < n {
      assert init[i] == entries[i];
      AssignAllValue(init, key, i);
    }
  }

  /** A key is present exactly when some entry assigns it, and it holds the value of
      the LAST entry assigning it. */
  lemma AssignAllLastWins(entries: seq<(string, string)>, key: string)
    ensures (key in ToMap(AssignAll(entries)))
              <==> (exists i :: 0 <= i < |entries| && entries[i].0 == key)
    ensures forall i :: 0 <= i < |entries| && entries[i].0 == key
              && (forall j :: i < j < |entries| ==> entries[j].0 != key)
              ==> ToMap(AssignAll(entries))[key] == entries[i].1
  {
    AssignAllHas(entries, key);
    forall i | 0 <= i < |entries| && entries[i].0 == key && (forall j :: i < j < |entries| ==> entries[j].0 != key)
      ensures ToMap(AssignAll(entries))[key] == entries[i].1
    {
      AssignAllValue(entries, key, i);
    }
  }

  /** Assigning entries one by one never repeats a key. */
  lemma {:induction false} AssignAllDistinct(entries: seq<(string, string)>)
    ensures DistinctKeys(AssignAll(entries))
  {
    if entries != [] {
      var n := |entries| - 1;
      AssignAllDistinct(entries[..n]);
      PutDistinct(AssignAll(entries[..n]), entries[n].0, entries[n].1);
    }
  }

  /** `width_2000,width_3000,format_webp`: the second `width` overwrites the first
      in place, and `format` comes after it. */
  lemma DuplicateKeyExample()
    ensures AssignAll([("width", "2000"), ("width", "3000"), ("format", "webp")])
      == [("width", "3000"), ("format", "webp")]
  {
    var es := [("width", "2000"), ("width", "3000"), ("format", "webp")];
    assert es[..1][..0] == [];
    assert AssignAll(es[..1]) == [("width", "2000")];
    assert es[..2][..1] == es[..1];
    assert AssignAll(es[..2]) == [("width", "3000")];
    assert "width" != "format" by { assert "width"[0] != "format"[0]; }
    assert Put([("width", "3000")], "format", "webp") == [("width", "3000")] + Put([], "format", "webp");
  }
}

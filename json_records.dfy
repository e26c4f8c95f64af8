/** The in-memory half of the JSON record store: the parsed content of a
    collection file, the `findIndex(item => item.id === uniqueKey)` lookup, the
    `{...old, ...newData}` merge and the `splice(index, 1)` removal performed
    by the callbacks of `updateJSONData` and `deleteJSONRecord`. */
module JsonRecords {
  import opened Outcomes

  /** A value as `JSON.parse` produces it. Numbers are JavaScript numbers that
      JSON can spell, so never NaN; -0 and 0 are the same real. */
  datatype Value =
    | JNull
    | JBool(b: bool)
    | JNum(n: real)
    | JStr(s: string)
    | JArr(elements: seq<Value>)
    | JObj(fields: map<string, Value>)

  /** A record patch, `newData`: an object literal, field name to value. */
  type Patch = map<string, Value>

  /** JavaScript `a === b` between a value read from the file and the key.
      Primitives compare by value; an array or object read from the file is a
      fresh reference, so it is strictly equal to nothing the caller holds. */
  predicate StrictEquals(a: Value, b: Value)
  {
    match (a, b)
    case (JNull, JNull) => true
    case (JBool(x), JBool(y)) => x == y
    case (JNum(x), JNum(y)) => x == y
    case (JStr(x), JStr(y)) => x == y
    case _ => false
  }

  /** `item.id === key`. An item without an `id` property yields `undefined`,
      which is strictly equal to no JSON value. */
  predicate IdMatches(item: Value, key: Value)
  {
    item.JObj? && "id" in item.fields && StrictEquals(item.fields["id"], key)
  }

  /** `item.id` throws a TypeError exactly when the item is `null`. */
  predicate Throws(item: Value)
  {
    item.JNull?
  }

  /** None of `s[lo..hi]` matches the key or throws. */
  ghost predicate Passed(s: seq<Value>, key: Value, lo: nat, hi: nat)
    requires lo <= hi <= |s|
  {
    forall j :: lo <= j < hi ==> !IdMatches(s[j], key) && !Throws(s[j])
  }

  /** What `findIndex` does: returns an index, returns -1 (Absent), or
      throws a TypeError from the predicate at some index. */
  datatype Search = Found(index: nat) | Absent | Threw(index: nat)

  /** The scan of `findIndex` from position `k` on. */
  function FirstMatchFrom(s: seq<Value>, key: Value, k: nat): (r: Search)
    requires k <= |s|
    ensures r.Found? ==> k <= r.index < |s| && IdMatches(s[r.index], key) && Passed(s, key, k, r.index)
    ensures r.Threw? ==> k <= r.index < |s| && Throws(s[r.index]) && Passed(s, key, k, r.index)
    ensures r.Absent? ==> Passed(s, key, k, |s|)
    decreases |s| - k
  {
    if k == |s| then Absent
    else if Throws(s[k]) then Threw(k)
    else if IdMatches(s[k], key) then Found(k)
    else FirstMatchFrom(s, key, k + 1)
  }

  /** `s.findIndex(item => item.id === key)`. */
  function FirstMatch(s: seq<Value>, key: Value): Search
  {
    FirstMatchFrom(s, key, 0)
  }

  /** `{...old, ...patch}`: every patch field takes the patch value, every
      other field of the old record is kept, nothing else appears. */
  function Merge(record: map<string, Value>, patch: Patch): (r: map<string, Value>)
    ensures r.Keys == record.Keys + patch.Keys
    ensures forall f :: f in patch ==> r[f] == patch[f]
    ensures forall f :: f in record && f !in patch ==> r[f] == record[f]
  {
    record + patch
  }

  /** The array after `jsonData.splice(i, 1)`. */
  function Removed(s: seq<Value>, i: nat): seq<Value>
    requires i < |s|
  {
    s[..i] + s[i + 1..]
  }

  /** The effect of the `updateJSONData` callback on the parsed data: the new
      array to write, or why nothing is written. A non-array has no
      `findIndex`; that TypeError, like one thrown by `item.id`, lands in the
      catch of `readJSONFile`, which reports a parse error. */
  function UpdateArray(data: Value, key: Value, patch: Patch): Result<Value>
  {
    if !data.JArr? then Err(ParseFailure)
    else
      match FirstMatch(data.elements, key)
      case Found(i) => Ok(JArr(data.elements[i := JObj(Merge(data.elements[i].fields, patch))]))
      case Absent => Err(NoMatch)
      case Threw(_) => Err(ParseFailure)
  }

  /** The effect of the `deleteJSONRecord` callback on the parsed data. */
  function DeleteFromArray(data: Value, key: Value): Result<Value>
  {
    if !data.JArr? then Err(ParseFailure)
    else
      match FirstMatch(data.elements, key)
      case Found(i) => Ok(JArr(Removed(data.elements, i)))
      case Absent => Err(NoMatch)
      case Threw(_) => Err(ParseFailure)
  }

  // ---------------------------------------------------------------------
  // The record collection the store is meant to hold

  /** Every element is an object, as in a record collection. */
  ghost predicate IsCollection(s: seq<Value>)
  {
    forall i :: 0 <= i < |s| ==> s[i].JObj?
  }

  /** No two records carry `id`s strictly equal to the same key. */
  ghost predicate UniqueIds(s: seq<Value>)
  {
    forall i, j, key :: 0 <= i < |s| && 0 <= j < |s| && IdMatches(s[i], key) && IdMatches(s[j], key) ==> i == j
  }

  // ---------------------------------------------------------------------
  // Lemmas

  /** On a record collection `findIndex` never throws, and it finds index `i`
      exactly when `i` is the least index whose `id` is strictly equal to the
      key; it reports -1 exactly when no record matches. */
  lemma FirstMatchOnCollection(s: seq<Value>, key: Value, i: nat)
    requires IsCollection(s)
    ensures !FirstMatch(s, key).Threw?
    ensures FirstMatch(s, key) == Found(i) <==>
              (i < |s| && IdMatches(s[i], key) && forall j :: 0 <= j < i ==> !IdMatches(s[j], key))
    ensures FirstMatch(s, key).Absent? <==> forall j :: 0 <= j < |s| ==> !IdMatches(s[j], key)
  {
  }

  /** A successful update keeps the length, changes only the matched record,
      and that record becomes the old one overridden by the patch. */
  lemma UpdateChangesOnlyMatch(data: Value, key: Value, patch: Patch)
    requires UpdateArray(data, key, patch).Ok?
    ensures data.JArr? && FirstMatch(data.elements, key).Found?
    ensures var i, s, t := FirstMatch(data.elements, key).index, data.elements, UpdateArray(data, key, patch).value;
            && t.JArr? && |t.elements| == |s|
            && (forall j :: 0 <= j < |s| && j != i ==> t.elements[j] == s[j])
            && s[i].JObj? && t.elements[i].JObj?
            && t.elements[i].fields.Keys == s[i].fields.Keys + patch.Keys
            && (forall f :: f in patch ==> t.elements[i].fields[f] == patch[f])
            && (forall f :: f in s[i].fields && f !in patch ==> t.elements[i].fields[f] == s[i].fields[f])
  {
  }

  /** Update refuses, with nothing written, exactly as the callback does. */
  lemma UpdateRefusals(data: Value, key: Value, patch: Patch)
    ensures UpdateArray(data, key, patch) == Err(NoMatch) <==>
              data.JArr? && Passed(data.elements, key, 0, |data.elements|)
    ensures UpdateArray(data, key, patch) == Err(ParseFailure) <==>
              !data.JArr? || FirstMatch(data.elements, key).Threw?
  {
  }

  /** A successful delete returns the array with exactly the first match taken
      out: one element fewer, the rest in their original order. */
  lemma {:induction false} DeleteRemovesFirstMatch(data: Value, key: Value)
    requires DeleteFromArray(data, key).Ok?
    ensures data.JArr? && FirstMatch(data.elements, key).Found?
    ensures var i, s, t := FirstMatch(data.elements, key).index, data.elements, DeleteFromArray(data, key).value;
            && t.JArr? && |t.elements| == |s| - 1
            && (forall j :: 0 <= j < i ==> t.elements[j] == s[j])
            && (forall j :: i <= j < |t.elements| ==> t.elements[j] == s[j + 1])
            && multiset(t.elements) + multiset{s[i]} == multiset(s)
  {
    var i, s := FirstMatch(data.elements, key).index, data.elements;
    assert s == s[..i] + [s[i]] + s[i + 1..];
  }

  /** Delete refuses, with nothing written, exactly as the callback does. */
  lemma DeleteRefusals(data: Value, key: Value)
    ensures DeleteFromArray(data, key) == Err(NoMatch) <==>
              data.JArr? && Passed(data.elements, key, 0, |data.elements|)
    ensures DeleteFromArray(data, key) == Err(ParseFailure) <==>
              !data.JArr? || FirstMatch(data.elements, key).Threw?
  {
  }

  /** In a collection with unique ids, a successful delete leaves no record
      with that key: looking it up again reports not-found. */
  lemma DeleteLeavesNoMatch(data: Value, key: Value)
    requires DeleteFromArray(data, key).Ok?
    requires data.JArr? && IsCollection(data.elements) && UniqueIds(data.elements)
    ensures var t := DeleteFromArray(data, key).value;
            t.JArr? && IsCollection(t.elements) && UniqueIds(t.elements) && FirstMatch(t.elements, key) == Absent
  {
    DeleteRemovesFirstMatch(data, key);
    var i, s, t := FirstMatch(data.elements, key).index, data.elements, DeleteFromArray(data, key).value.elements;
    assert forall j :: 0 <= j < |t| ==> t[j] == s[if j < i then j else j + 1];
    forall j | 0 <= j < |t|
      ensures !IdMatches(t[j], key)
    {
      var j' := if j < i then j else j + 1;
      assert t[j] == s[j'] && j' != i;
    }
    FirstMatchOnCollection(t, key, 0);
  }

  /** An update whose patch leaves `id` alone keeps a collection a collection
      with unique ids. */
  lemma UpdateKeepsUniqueIds(data: Value, key: Value, patch: Patch)
    requires UpdateArray(data, key, patch).Ok?
    requires "id" !in patch
    requires data.JArr? && IsCollection(data.elements) && UniqueIds(data.elements)
    ensures var t := UpdateArray(data, key, patch).value;
            t.JArr? && IsCollection(t.elements) && UniqueIds(t.elements)
  {
    UpdateChangesOnlyMatch(data, key, patch);
    var s, t := data.elements, UpdateArray(data, key, patch).value.elements;
    forall j, k | 0 <= j < |t| && IdMatches(t[j], k)
      ensures IdMatches(s[j], k)
    {
    }
  }

  // ---------------------------------------------------------------------
  // The parsed array, mutated in place by the callbacks

  /** The array `jsonData` handed to the callbacks of `updateJSONData` and
      `deleteJSONRecord`, which change it in place. */
  class JsonArray {
    var elements: seq<Value>

    constructor (parsed: seq<Value>)
      ensures elements == parsed
    {
      elements := parsed;
    }

    /** `jsonData.findIndex(item => item.id === key)`, a linear scan that
        stops at the first match, or at the first item whose `id` cannot be
        read. */
    method FindIndex(key: Value) returns (r: Search)
      ensures r == FirstMatch(elements, key)
      ensures r.Found? ==> r.index < |elements| && IdMatches(elements[r.index], key)
                           && forall j :: 0 <= j < r.index ==> !IdMatches(elements[j], key)
      ensures r.Absent? ==> forall j :: 0 <= j < |elements| ==> !IdMatches(elements[j], key)
    {
      var k := 0;
      while k < |elements|
        invariant 0 <= k <= |elements|
        invariant FirstMatchFrom(elements, key, k) == FirstMatch(elements, key)
        invariant Passed(elements, key, 0, k)
      {
        if Throws(elements[k]) {
          return Threw(k);
        }
        if IdMatches(elements[k], key) {
          return Found(k);
        }
        k := k + 1;
      }
      return Absent;
    }

    /** The `updateJSONData` callback body up to the write:
        `jsonData[index] = {...jsonData[index], ...newData}` at the first
        match, nothing when there is none. */
    method UpdateByKey(key: Value, patch: Patch) returns (r: Search)
      modifies this
      ensures r == FirstMatch(old(elements), key)
      ensures r.Found? ==> UpdateArray(JArr(old(elements)), key, patch) == Ok(JArr(elements))
      ensures !r.Found? ==> elements == old(elements)
    {
      r := FindIndex(key);
      if r.Found? {
        var record := elements[r.index];
        elements := elements[r.index := JObj(Merge(record.fields, patch))];
      }
    }

    /** The `deleteJSONRecord` callback body up to the write:
        `jsonData.splice(index, 1)` at the first match, nothing when there is
        none. */
    method DeleteByKey(key: Value) returns (r: Search)
      modifies this
      ensures r == FirstMatch(old(elements), key)
      ensures r.Found? ==> DeleteFromArray(JArr(old(elements)), key) == Ok(JArr(elements))
      ensures !r.Found? ==> elements == old(elements)
    {
      r := FindIndex(key);
      if r.Found? {
        elements := elements[..r.index] + elements[r.index + 1..];
      }
    }
  }
}

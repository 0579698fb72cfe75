/** Employee records as values, and the pure operations on them that the
    in-memory employee store is built from: id selection, the shallow merge
    of `Object.assign`, the department filter, the snapshot of a map's values
    in key-insertion order, and removal of a key from that order. */
module Employees {

  /** A JSON-shaped attribute value. */
  datatype Value = Str(s: string) | Num(n: int) | Bool(b: bool) | Null

  /** A record: attribute name to value. A name that is not a key is an
      undefined attribute; in particular `id` may be absent. */
  type Employee = map<string, Value>

  datatype Option<T> = None | Some(value: T)

  /** The `id` attribute is undefined, null, or a string, as the Employee type
      declares (null can still arrive in a JSON body). */
  predicate HasStringOrNullId(e: Employee) {
    "id" !in e || e["id"].Str? || e["id"].Null?
  }

  /** The id `addEmployee` stores under: `empl.id ?? generated`. Only null or
      undefined fall through to the generated id; an empty string is kept. */
  function ChosenId(e: Employee, generated: string): (id: string)
    requires HasStringOrNullId(e)
    ensures "id" in e && e["id"].Str? ==> id == e["id"].s
    ensures "id" !in e || e["id"] == Null ==> id == generated
  {
    if "id" in e && e["id"].Str? then e["id"].s else generated
  }

  /** The record after `empl.id = id`. */
  function WithId(e: Employee, id: string): (r: Employee)
    ensures "id" in r && r["id"] == Str(id)
    ensures r.Keys == e.Keys + {"id"}
    ensures forall k :: k in e && k != "id" ==> r[k] == e[k]
  {
    e["id" := Str(id)]
  }

  /** `Object.assign(rec, patch)` for ordinary own attributes: a shallow merge
      in which the patch wins. */
  function Merge(rec: Employee, patch: Employee): (r: Employee)
    ensures r.Keys == rec.Keys + patch.Keys
    ensures forall k :: k in patch ==> r[k] == patch[k]
    ensures forall k :: k in rec && k !in patch ==> r[k] == rec[k]
  {
    rec + patch
  }

  /** The patch leaves the record's `id` alone, or sets it to the key it is
      stored under. */
  predicate KeepsId(patch: Employee, key: string) {
    "id" !in patch || patch["id"] == Str(key)
  }

  /** `empl.department === department`: strict equality with a string. */
  predicate InDepartment(e: Employee, d: string) {
    "department" in e && e["department"] == Str(d)
  }

  /** `if (department)`: undefined and the empty string both mean no filter. */
  predicate FilterActive(department: Option<string>) {
    department.Some? && department.value != ""
  }

  predicate NoDuplicates<T(==)>(s: seq<T>) {
    forall i, j :: 0 <= i < j < |s| ==> s[i] != s[j]
  }

  /** Every stored record's `id` is the key it is stored under. */
  predicate IdsMatch(m: map<string, Employee>) {
    forall k :: k in m ==> "id" in m[k] && m[k]["id"] == Str(k)
  }

  /** `a` is `b` with some elements left out, the rest in their order. */
  ghost predicate IsSubsequence<T>(a: seq<T>, b: seq<T>)
    decreases |b|
  {
    if a == [] then true
    else if b == [] then false
    else (a[0] == b[0] && IsSubsequence(a[1..], b[1..])) || IsSubsequence(a, b[1..])
  }

  /** `Array.from(map.values())`: the records, in the order of their keys. */
  function Snapshot(order: seq<string>, m: map<string, Employee>): (r: seq<Employee>)
    requires forall i :: 0 <= i < |order| ==> order[i] in m
    ensures |r| == |order|
    ensures forall i :: 0 <= i < |order| ==> r[i] == m[order[i]]
  {
    seq(|order|, i requires 0 <= i < |order| => m[order[i]])
  }

  /** `records.filter(e => e.department === d)`. */
  function FilterByDepartment(s: seq<Employee>, d: string): (r: seq<Employee>)
    ensures |r| <= |s|
    ensures forall i :: 0 <= i < |r| ==> r[i] in s && InDepartment(r[i], d)
  {
    if s == [] then []
    else (if InDepartment(s[0], d) then [s[0]] else []) + FilterByDepartment(s[1..], d)
  }

  /** The insertion order after `map.delete(k)`. */
  function RemoveKey(s: seq<string>, k: string): (r: seq<string>)
    ensures |r| <= |s|
    ensures k !in r
    ensures forall i :: 0 <= i < |r| ==> r[i] in s
  {
    if s == [] then []
    else (if s[0] == k then [] else [s[0]]) + RemoveKey(s[1..], k)
  }

  // ---------------------------------------------------------------------
  // The department filter

  /** A record is in the filtered sequence iff it is in the input and is in
      department `d`. */
  lemma {:induction false} FilterMembership(s: seq<Employee>, d: string)
    ensures forall x :: x in FilterByDepartment(s, d) <==> x in s && InDepartment(x, d)
  {
    if s != [] {
      FilterMembership(s[1..], d);
      assert s == [s[0]] + s[1..];
    }
  }

  /** The filter keeps the input's order and takes nothing from elsewhere. */
  lemma {:induction false} FilterIsSubsequence(s: seq<Employee>, d: string)
    ensures IsSubsequence(FilterByDepartment(s, d), s)
  {
    if s != [] {
      FilterIsSubsequence(s[1..], d);
      var r := FilterByDepartment(s, d);
      if InDepartment(s[0], d) {
        assert r[0] == s[0] && r[1..] == FilterByDepartment(s[1..], d);
      } else {
        assert r == FilterByDepartment(s[1..], d);
      }
    }
  }

  /** Filtering twice by the same department filters once. */
  lemma {:induction false} FilterIdempotent(s: seq<Employee>, d: string)
    ensures FilterByDepartment(FilterByDepartment(s, d), d) == FilterByDepartment(s, d)
  {
    if s != [] {
      FilterIdempotent(s[1..], d);
      var t := FilterByDepartment(s[1..], d);
      if InDepartment(s[0], d) {
        var u := [s[0]] + t;
        assert u[0] == s[0] && u[1..] == t;
        assert FilterByDepartment(u, d) == [s[0]] + FilterByDepartment(t, d);
      } else {
        assert FilterByDepartment(s, d) == [] + t == t;
      }
    }
  }

  /** Filtering a sequence with no repeated record leaves none repeated. */
  lemma {:induction false} FilterKeepsNoDuplicates(s: seq<Employee>, d: string)
    ensures NoDuplicates(s) ==> NoDuplicates(FilterByDepartment(s, d))
  {
    if s != [] && NoDuplicates(s) {
      NoDuplicatesSplit(s);
      FilterKeepsNoDuplicates(s[1..], d);
      FilterMembership(s[1..], d);
      if InDepartment(s[0], d) {
        NoDuplicatesCons(s[0], FilterByDepartment(s[1..], d));
      }
    }
  }

  /** Every sequence is a subsequence of itself. */
  lemma {:induction false} SubsequenceReflexive<T>(s: seq<T>)
    ensures IsSubsequence(s, s)
  {
    if s != [] {
      SubsequenceReflexive(s[1..]);
    }
  }

  /** The department test is exact: a record with a string department matches
      that string and no other (no case folding, no partial match), and a
      record whose department is missing or not a string matches nothing. */
  lemma DepartmentIsExact(e: Employee, d1: string, d2: string)
    ensures InDepartment(e, d1) ==> (InDepartment(e, d2) <==> d1 == d2)
    ensures "department" !in e || !e["department"].Str? ==> !InDepartment(e, d1)
  {
  }

  /** Only a non-empty department narrows the list: undefined and the empty
      string are both falsy. */
  lemma FilterActiveTruthiness(d: string)
    ensures !FilterActive(None) && !FilterActive(Some(""))
    ensures FilterActive(Some(d)) <==> d != ""
  {
  }

  // ---------------------------------------------------------------------
  // The snapshot of the values

  /** A record is in the snapshot iff some key in the order maps to it. */
  lemma SnapshotMembership(order: seq<string>, m: map<string, Employee>)
    requires forall i :: 0 <= i < |order| ==> order[i] in m
    requires forall k :: k in m ==> k in order
    ensures forall x :: x in Snapshot(order, m) <==> x in m.Values
  {
    var r := Snapshot(order, m);
    forall x | x in m.Values ensures x in r {
      var k :| k in m && m[k] == x;
      var i :| 0 <= i < |order| && order[i] == k;
      assert r[i] == x;
    }
  }

  /** When every record carries its own key as id, the snapshot of an order
      with no repeated key holds no record twice. */
  lemma SnapshotNoDuplicates(order: seq<string>, m: map<string, Employee>)
    requires forall i :: 0 <= i < |order| ==> order[i] in m
    requires NoDuplicates(order)
    ensures IdsMatch(m) ==> NoDuplicates(Snapshot(order, m))
  {
    if IdsMatch(m) {
      var r := Snapshot(order, m);
      forall i, j | 0 <= i < j < |r| ensures r[i] != r[j] {
        assert r[i]["id"] == Str(order[i]);
        assert r[j]["id"] == Str(order[j]);
      }
    }
  }

  // ---------------------------------------------------------------------
  // Removing a key from the insertion order

  /** The remaining keys are exactly the others. */
  lemma {:induction false} RemoveKeyMembership(s: seq<string>, k: string)
    ensures forall x :: x in RemoveKey(s, k) <==> x in s && x != k
  {
    if s != [] {
      RemoveKeyMembership(s[1..], k);
      assert s == [s[0]] + s[1..];
    }
  }

  /** The remaining keys keep their relative order. */
  lemma {:induction false} RemoveKeyIsSubsequence(s: seq<string>, k: string)
    ensures IsSubsequence(RemoveKey(s, k), s)
  {
    if s != [] {
      RemoveKeyIsSubsequence(s[1..], k);
      var r := RemoveKey(s, k);
      if s[0] != k {
        assert r[0] == s[0] && r[1..] == RemoveKey(s[1..], k);
      } else {
        assert r == RemoveKey(s[1..], k);
      }
    }
  }

  /** Removing a key that is not there changes nothing. */
  lemma {:induction false} RemoveAbsentKey(s: seq<string>, k: string)
    requires k !in s
    ensures RemoveKey(s, k) == s
  {
    if s != [] {
      RemoveAbsentKey(s[1..], k);
      assert s == [s[0]] + s[1..];
    }
  }

  /** An order with no repeated key keeps that property, and loses exactly
      one element when the key was present. */
  lemma {:induction false} RemoveKeyNoDuplicates(s: seq<string>, k: string)
    requires NoDuplicates(s)
    ensures NoDuplicates(RemoveKey(s, k))
    ensures |RemoveKey(s, k)| == if k in s then |s| - 1 else |s|
  {
    if s != [] {
      NoDuplicatesSplit(s);
      RemoveKeyNoDuplicates(s[1..], k);
      var t := RemoveKey(s[1..], k);
      assert RemoveKey(s, k) == (if s[0] == k then [] else [s[0]]) + t;
      assert k in s <==> k == s[0] || k in s[1..] by {
        assert s == [s[0]] + s[1..];
      }
      if s[0] == k {
        RemoveAbsentKey(s[1..], k);
      } else {
        RemoveKeyMembership(s[1..], k);
        NoDuplicatesCons(s[0], t);
      }
    }
  }

  /** Appending a fresh key and then removing it restores the order: an add
      followed by a delete of the same id leaves the store as it was. */
  lemma {:induction false} RemoveAppended(s: seq<string>, k: string)
    requires k !in s
    ensures RemoveKey(s + [k], k) == s
  {
    if s == [] {
      assert RemoveKey([k], k) == [] + RemoveKey([], k);
    } else {
      assert (s + [k])[0] == s[0] && (s + [k])[1..] == s[1..] + [k];
      RemoveAppended(s[1..], k);
      assert s == [s[0]] + s[1..];
    }
  }

  // ---------------------------------------------------------------------
  // Sequences without repeats

  /** A sequence without repeats splits into a head that does not recur and a
      tail without repeats. */
  lemma NoDuplicatesSplit<T>(s: seq<T>)
    requires s != [] && NoDuplicates(s)
    ensures s[0] !in s[1..] && NoDuplicates(s[1..])
  {
    forall i | 0 <= i < |s[1..]| ensures s[1..][i] != s[0] {
      assert s[1..][i] == s[i + 1];
    }
    forall i, j | 0 <= i < j < |s[1..]| ensures s[1..][i] != s[1..][j] {
      assert s[1..][i] == s[i + 1] && s[1..][j] == s[j + 1];
    }
  }

  /** Putting a new element in front of a sequence without repeats keeps it
      without repeats. */
  lemma NoDuplicatesCons<T>(x: T, t: seq<T>)
    requires x !in t && NoDuplicates(t)
    ensures NoDuplicates([x] + t)
  {
    var r := [x] + t;
    forall i, j | 0 <= i < j < |r| ensures r[i] != r[j] {
      if i == 0 {
        assert r[j] == t[j - 1];
      } else {
        assert r[i] == t[i - 1] && r[j] == t[j - 1];
      }
    }
  }

  // ---------------------------------------------------------------------
  // The shallow merge

  /** A merge with an empty patch changes nothing. */
  lemma MergeEmpty(rec: Employee)
    ensures Merge(rec, map[]) == rec
  {
  }

  /** Applying the same patch twice is the same as applying it once. */
  lemma MergeIdempotent(rec: Employee, patch: Employee)
    ensures Merge(Merge(rec, patch), patch) == Merge(rec, patch)
  {
  }

  /** Two patches in a row act like their own merge. */
  lemma MergeCompose(rec: Employee, p: Employee, q: Employee)
    ensures Merge(Merge(rec, p), q) == Merge(rec, Merge(p, q))
  {
  }

  /** Merging keeps a record's id exactly when the patch keeps it. */
  lemma MergeKeepsId(rec: Employee, patch: Employee, key: string)
    requires "id" in rec && rec["id"] == Str(key)
    ensures ("id" in Merge(rec, patch) && Merge(rec, patch)["id"] == Str(key)) <==> KeepsId(patch, key)
  {
  }
}

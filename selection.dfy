/** The popup's selection state: the SObject catalog, the per-SObject field cache, the
    selected SObjects and the selected fields per SObject, with the edits the popup's
    buttons make to them and the `handleProcessSelections` pipeline that turns them
    into report rows. */
module Selection {
  import opened Wrappers
  import opened JsValues
  import opened Fields
  import opened QueryPlan
  import opened StableSort
  import opened Processing
  import Chunking

  /* ---------- field lists as JavaScript Sets see them ---------- */

  ghost predicate NoDup(xs: seq<string>) {
    forall i, j | 0 <= i < j < |xs| :: xs[i] != xs[j]
  }

  /** `Array.from(new Set(xs))`: first occurrences, in order. */
  function Dedup(xs: seq<string>): (r: seq<string>)
    ensures NoDup(r)
    ensures forall x :: x in r <==> x in xs
    ensures |r| <= |xs|
  {
    if xs == [] then []
    else
      var d := Dedup(xs[..|xs| - 1]);
      var last := xs[|xs| - 1];
      assert forall x :: x in xs <==> x in xs[..|xs| - 1] || x == last by {
        assert xs == xs[..|xs| - 1] + [last];
      }
      if last in d then d else d + [last]
  }

  /** A list without duplicates is its own `Set`. */
  lemma {:induction false} DedupNoDup(xs: seq<string>)
    requires NoDup(xs)
    ensures Dedup(xs) == xs
  {
    if xs != [] {
      var init := xs[..|xs| - 1];
      DedupNoDup(init);
      assert xs[|xs| - 1] !in init;
      assert xs == init + [xs[|xs| - 1]];
    }
  }

  /** `set.delete(x)` followed by `Array.from(set)`. */
  function Without(xs: seq<string>, x: string): (r: seq<string>)
    ensures forall y :: y in r <==> y in xs && y != x
    ensures NoDup(xs) ==> NoDup(r)
    ensures x !in xs ==> r == xs
  {
    if xs == [] then []
    else if xs[0] == x then Without(xs[1..], x)
    else
      assert forall y :: y in xs <==> y == xs[0] || y in xs[1..] by {
        assert xs == [xs[0]] + xs[1..];
      }
      assert NoDup(xs) ==> xs[0] !in xs[1..] && NoDup(xs[1..]) by {
        if NoDup(xs) {
          forall k | 0 <= k < |xs[1..]| ensures xs[1..][k] != xs[0] {
            assert xs[1..][k] == xs[k + 1];
          }
        }
      }
      [xs[0]] + Without(xs[1..], x)
  }

  /** Deleting keeps the order of what remains: it deletes from each part of a list on
      its own (and `WithoutCons` says what it does to one element). */
  lemma {:induction false} WithoutAppend(a: seq<string>, b: seq<string>, x: string)
    ensures Without(a + b, x) == Without(a, x) + Without(b, x)
  {
    if a == [] {
      assert a + b == b;
    } else {
      var h, t := a[0], a[1..];
      assert a == [h] + t;
      assert a + b == [h] + (t + b);
      WithoutAppend(t, b, x);
      WithoutCons(h, t + b, x);
      WithoutCons(h, t, x);
      Chunking.AppendAssoc(if h == x then [] else [h], Without(t, x), Without(b, x));
    }
  }

  /** Deleting drops the first element exactly when it is `x`. */
  lemma WithoutCons(h: string, t: seq<string>, x: string)
    ensures Without([h] + t, x) == (if h == x then [] else [h]) + Without(t, x)
  {
    assert ([h] + t)[0] == h && ([h] + t)[1..] == t;
  }

  /** `selectedFields.get(sobject) || []`. */
  function ListOf(m: map<string, seq<string>>, sobject: string): seq<string> {
    if sobject in m then m[sobject] else []
  }

  /** What the field-edit handlers keep: every stored list is non-empty and
      duplicate-free. */
  ghost predicate ValidSelection(m: map<string, seq<string>>) {
    forall k | k in m :: |m[k]| > 0 && NoDup(m[k])
  }

  /* ---------- handleAddFields ---------- */

  /** One option value of `handleAddFields`: the new map and whether it changed. */
  function AddField(m: map<string, seq<string>>, value: string): (map<string, seq<string>>, bool) {
    match ParseFieldKey(value)
    case None => (m, false)
    case Some(FieldRef(s, f)) =>
      var current := Dedup(ListOf(m, s));
      if f in current then (m, false) else (m[s := current + [f]], true)
  }

  /** All selected option values, in order. */
  function AddFieldsSpec(m: map<string, seq<string>>, values: seq<string>): (map<string, seq<string>>, bool) {
    if values == [] then (m, false)
    else
      var (m1, c1) := AddFieldsSpec(m, values[..|values| - 1]);
      var (m2, c2) := AddField(m1, values[|values| - 1]);
      (m2, c1 || c2)
  }

  /** A field that is in a list stays in it while fields are added. */
  lemma {:induction false} AddKeeps(m: map<string, seq<string>>, values: seq<string>, s: string, f: string)
    ensures f in ListOf(m, s) ==> f in ListOf(AddFieldsSpec(m, values).0, s)
  {
    if values != [] {
      var m1 := AddFieldsSpec(m, values[..|values| - 1]).0;
      AddKeeps(m, values[..|values| - 1], s, f);
      if f in ListOf(m1, s) {
        match ParseFieldKey(values[|values| - 1])
        case None =>
        case Some(FieldRef(s', f')) =>
          assert f in Dedup(ListOf(m1, s'))  || s != s';
      }
    }
  }

  /** Adding that reports no change leaves the map as it was. */
  lemma {:induction false} AddNoChange(m: map<string, seq<string>>, values: seq<string>)
    ensures !AddFieldsSpec(m, values).1 ==> AddFieldsSpec(m, values).0 == m
  {
    if values != [] {
      AddNoChange(m, values[..|values| - 1]);
    }
  }

  /** After adding, every parsed field is in the list of its SObject, and the result
      says "changed" exactly when one of them was not there before. */
  lemma AddFieldsEffect(m: map<string, seq<string>>, values: seq<string>)
    ensures forall i | 0 <= i < |values| && ParseFieldKey(values[i]).Some? ::
      ParseFieldKey(values[i]).value.field in
        ListOf(AddFieldsSpec(m, values).0, ParseFieldKey(values[i]).value.sobject)
    ensures AddFieldsSpec(m, values).1 <==>
      exists i | 0 <= i < |values| :: ParseFieldKey(values[i]).Some? &&
        ParseFieldKey(values[i]).value.field !in ListOf(m, ParseFieldKey(values[i]).value.sobject)
  {
    AddFieldsIn(m, values);
    AddFieldsChanged(m, values);
  }

  /** Adding one value keeps every field already in a list. */
  lemma AddFieldKeeps(m: map<string, seq<string>>, v: string, s: string, f: string)
    requires f in ListOf(m, s)
    ensures f in ListOf(AddField(m, v).0, s)
  {
    match ParseFieldKey(v)
    case None =>
    case Some(FieldRef(s', f')) =>
      assert f in Dedup(ListOf(m, s')) || s != s';
  }

  lemma {:induction false} AddFieldsIn(m: map<string, seq<string>>, values: seq<string>)
    ensures forall i | 0 <= i < |values| && ParseFieldKey(values[i]).Some? ::
      ParseFieldKey(values[i]).value.field in
        ListOf(AddFieldsSpec(m, values).0, ParseFieldKey(values[i]).value.sobject)
  {
    if values != [] {
      var n := |values| - 1;
      var init := values[..n];
      AddFieldsIn(m, init);
      var m1 := AddFieldsSpec(m, init).0;
      forall i | 0 <= i < |values| && ParseFieldKey(values[i]).Some?
        ensures ParseFieldKey(values[i]).value.field in
          ListOf(AddFieldsSpec(m, values).0, ParseFieldKey(values[i]).value.sobject)
      {
        var r := ParseFieldKey(values[i]).value;
        if i < n {
          assert values[i] == init[i];
          AddFieldKeeps(m1, values[n], r.sobject, r.field);
        }
      }
    }
  }

  lemma {:induction false} AddFieldsChanged(m: map<string, seq<string>>, values: seq<string>)
    ensures AddFieldsSpec(m, values).1 <==>
      exists i | 0 <= i < |values| :: ParseFieldKey(values[i]).Some? &&
        ParseFieldKey(values[i]).value.field !in ListOf(m, ParseFieldKey(values[i]).value.sobject)
  {
    if values != [] {
      var n := |values| - 1;
      var init := values[..n];
      AddFieldsChanged(m, init);
      var (m1, c1) := AddFieldsSpec(m, init);
      assert forall i | 0 <= i < n :: values[i] == init[i];
      match ParseFieldKey(values[n])
      case None =>
      case Some(FieldRef(s, f)) =>
        var c2 := f !in ListOf(m1, s);
        assert AddFieldsSpec(m, values).1 == (c1 || c2);
        if c2 {
          if f in ListOf(m, s) {
            AddKeeps(m, init, s, f);
          }
        } else if f !in ListOf(m, s) {
          AddNoChange(m, init);
        }
    }
  }

  /** Adding touches only the lists of the parsed SObjects. */
  lemma {:induction false} AddFieldsFrame(m: map<string, seq<string>>, values: seq<string>, k: string)
    requires forall i | 0 <= i < |values| && ParseFieldKey(values[i]).Some? :: ParseFieldKey(values[i]).value.sobject != k
    ensures (k in AddFieldsSpec(m, values).0) == (k in m)
    ensures k in m ==> AddFieldsSpec(m, values).0[k] == m[k]
  {
    if values != [] {
      AddFieldsFrame(m, values[..|values| - 1], k);
    }
  }

  /** Adding keeps every list non-empty and duplicate-free. */
  lemma {:induction false} AddFieldsValid(m: map<string, seq<string>>, values: seq<string>)
    requires ValidSelection(m)
    ensures ValidSelection(AddFieldsSpec(m, values).0)
  {
    if values != [] {
      AddFieldsValid(m, values[..|values| - 1]);
      var m1 := AddFieldsSpec(m, values[..|values| - 1]).0;
      match ParseFieldKey(values[|values| - 1])
      case None =>
      case Some(FieldRef(s, f)) =>
        var current := Dedup(ListOf(m1, s));
        if f !in current {
          assert NoDup(current + [f]);
        }
    }
  }

  /* ---------- handleRemoveFields ---------- */

  /** One option value of `handleRemoveFields`: an emptied list removes its SObject. */
  function RemoveField(m: map<string, seq<string>>, value: string): (map<string, seq<string>>, bool) {
    match ParseFieldKey(value)
    case None => (m, false)
    case Some(FieldRef(s, f)) =>
      var current := Dedup(ListOf(m, s));
      if f !in current then (m, false)
      else
        var rest := Without(current, f);
        if |rest| == 0 then (m - {s}, true) else (m[s := rest], true)
  }

  function RemoveFieldsSpec(m: map<string, seq<string>>, values: seq<string>): (map<string, seq<string>>, bool) {
    if values == [] then (m, false)
    else
      var (m1, c1) := RemoveFieldsSpec(m, values[..|values| - 1]);
      var (m2, c2) := RemoveField(m1, values[|values| - 1]);
      (m2, c1 || c2)
  }

  /** A field absent from a list stays absent while fields are removed. */
  lemma {:induction false} RemoveKeepsOut(m: map<string, seq<string>>, values: seq<string>, s: string, f: string)
    ensures f !in ListOf(m, s) ==> f !in ListOf(RemoveFieldsSpec(m, values).0, s)
  {
    if values != [] {
      RemoveKeepsOut(m, values[..|values| - 1], s, f);
    }
  }

  /** Removing that reports no change leaves the map as it was. */
  lemma {:induction false} RemoveNoChange(m: map<string, seq<string>>, values: seq<string>)
    ensures !RemoveFieldsSpec(m, values).1 ==> RemoveFieldsSpec(m, values).0 == m
  {
    if values != [] {
      RemoveNoChange(m, values[..|values| - 1]);
    }
  }

  /** After removing, no parsed field is left in its SObject's list, and the result
      says "changed" exactly when one of them was there before. */
  lemma RemoveFieldsEffect(m: map<string, seq<string>>, values: seq<string>)
    ensures forall i | 0 <= i < |values| && ParseFieldKey(values[i]).Some? ::
      ParseFieldKey(values[i]).value.field !in
        ListOf(RemoveFieldsSpec(m, values).0, ParseFieldKey(values[i]).value.sobject)
    ensures RemoveFieldsSpec(m, values).1 <==>
      exists i | 0 <= i < |values| :: ParseFieldKey(values[i]).Some? &&
        ParseFieldKey(values[i]).value.field in ListOf(m, ParseFieldKey(values[i]).value.sobject)
  {
    RemoveFieldsOut(m, values);
    RemoveFieldsChanged(m, values);
  }

  /** Removing one value never puts a field back. */
  lemma RemoveFieldKeepsOut(m: map<string, seq<string>>, v: string, s: string, f: string)
    requires f !in ListOf(m, s)
    ensures f !in ListOf(RemoveField(m, v).0, s)
  {
  }

  lemma {:induction false} RemoveFieldsOut(m: map<string, seq<string>>, values: seq<string>)
    ensures forall i | 0 <= i < |values| && ParseFieldKey(values[i]).Some? ::
      ParseFieldKey(values[i]).value.field !in
        ListOf(RemoveFieldsSpec(m, values).0, ParseFieldKey(values[i]).value.sobject)
  {
    if values != [] {
      var n := |values| - 1;
      var init := values[..n];
      RemoveFieldsOut(m, init);
      var m1 := RemoveFieldsSpec(m, init).0;
      forall i | 0 <= i < |values| && ParseFieldKey(values[i]).Some?
        ensures ParseFieldKey(values[i]).value.field !in
          ListOf(RemoveFieldsSpec(m, values).0, ParseFieldKey(values[i]).value.sobject)
      {
        var r := ParseFieldKey(values[i]).value;
        if i < n {
          assert values[i] == init[i];
          RemoveFieldKeepsOut(m1, values[n], r.sobject, r.field);
        }
      }
    }
  }

  lemma {:induction false} RemoveFieldsChanged(m: map<string, seq<string>>, values: seq<string>)
    ensures RemoveFieldsSpec(m, values).1 <==>
      exists i | 0 <= i < |values| :: ParseFieldKey(values[i]).Some? &&
        ParseFieldKey(values[i]).value.field in ListOf(m, ParseFieldKey(values[i]).value.sobject)
  {
    if values != [] {
      var n := |values| - 1;
      var init := values[..n];
      RemoveFieldsChanged(m, init);
      var (m1, c1) := RemoveFieldsSpec(m, init);
      assert forall i | 0 <= i < n :: values[i] == init[i];
      match ParseFieldKey(values[n])
      case None =>
      case Some(FieldRef(s, f)) =>
        var c2 := f in ListOf(m1, s);
        assert RemoveFieldsSpec(m, values).1 == (c1 || c2);
        if c2 {
          if f !in ListOf(m, s) {
            RemoveKeepsOut(m, init, s, f);
          }
        } else if f in ListOf(m, s) {
          RemoveNoChange(m, init);
        }
    }
  }

  /** Removing one value keeps every selected field that the value does not name. */
  lemma RemoveFieldKeeps(m: map<string, seq<string>>, v: string, s: string, f: string)
    requires f in ListOf(m, s) && ParseFieldKey(v) != Some(FieldRef(s, f))
    ensures f in ListOf(RemoveField(m, v).0, s)
  {
    match ParseFieldKey(v)
    case None =>
    case Some(FieldRef(s', f')) =>
      if s' == s {
        var current := Dedup(ListOf(m, s));
        if f' in current {
          assert f in Without(current, f');
        }
      }
  }

  /** A selected field that no value names stays selected. */
  lemma {:induction false} RemoveFieldsKeeps(m: map<string, seq<string>>, values: seq<string>, s: string, f: string)
    requires f in ListOf(m, s)
    requires forall i | 0 <= i < |values| :: ParseFieldKey(values[i]) != Some(FieldRef(s, f))
    ensures f in ListOf(RemoveFieldsSpec(m, values).0, s)
  {
    if values != [] {
      var n := |values| - 1;
      RemoveFieldsKeeps(m, values[..n], s, f);
      RemoveFieldKeeps(RemoveFieldsSpec(m, values[..n]).0, values[n], s, f);
    }
  }

  /** Removing touches only the lists of the parsed SObjects. */
  lemma {:induction false} RemoveFieldsFrame(m: map<string, seq<string>>, values: seq<string>, k: string)
    requires forall i | 0 <= i < |values| && ParseFieldKey(values[i]).Some? :: ParseFieldKey(values[i]).value.sobject != k
    ensures (k in RemoveFieldsSpec(m, values).0) == (k in m)
    ensures k in m ==> RemoveFieldsSpec(m, values).0[k] == m[k]
  {
    if values != [] {
      RemoveFieldsFrame(m, values[..|values| - 1], k);
    }
  }

  /** Removing keeps every list non-empty and duplicate-free. */
  lemma {:induction false} RemoveFieldsValid(m: map<string, seq<string>>, values: seq<string>)
    requires ValidSelection(m)
    ensures ValidSelection(RemoveFieldsSpec(m, values).0)
  {
    if values != [] {
      RemoveFieldsValid(m, values[..|values| - 1]);
      RemoveFieldValid(RemoveFieldsSpec(m, values[..|values| - 1]).0, values[|values| - 1]);
    }
  }

  lemma RemoveFieldValid(m: map<string, seq<string>>, value: string)
    requires ValidSelection(m)
    ensures ValidSelection(RemoveField(m, value).0)
  {
    match ParseFieldKey(value)
    case None =>
    case Some(FieldRef(s, f)) =>
      var current := Dedup(ListOf(m, s));
      if f in current {
        assert NoDup(Without(current, f));
      }
  }

  /** Removing a field that was just added restores the selection. */
  lemma AddThenRemove(m: map<string, seq<string>>, value: string)
    requires ValidSelection(m) && ParseFieldKey(value).Some?
    requires ParseFieldKey(value).value.field !in ListOf(m, ParseFieldKey(value).value.sobject)
    ensures RemoveField(AddField(m, value).0, value).0 == m
  {
    var s, f := ParseFieldKey(value).value.sobject, ParseFieldKey(value).value.field;
    var current := Dedup(ListOf(m, s));
    if s in m {
      assert NoDup(m[s]);
      DedupNoDup(m[s]);
    }
    assert AddField(m, value).0 == m[s := current + [f]];
    RemoveAdded(m, value, s, f, current);
  }

  /** The removal half of `AddThenRemove`, once the added list is known. */
  lemma RemoveAdded(m: map<string, seq<string>>, value: string, s: string, f: string, current: seq<string>)
    requires ParseFieldKey(value) == Some(FieldRef(s, f)) && f !in current && NoDup(current)
    requires s in m ==> m[s] == current && |current| > 0
    requires s !in m ==> current == []
    ensures RemoveField(m[s := current + [f]], value).0 == m
  {
    var added := m[s := current + [f]];
    assert ListOf(added, s) == current + [f];
    DedupNoDup(current + [f]);
    WithoutLast(current, f);
    if s in m {
      assert added[s := current] == m;
    } else {
      assert added - {s} == m;
    }
  }

  lemma WithoutLast(xs: seq<string>, x: string)
    requires x !in xs
    ensures Without(xs + [x], x) == xs
  {
    WithoutAppend(xs, [x], x);
    WithoutCons(x, [], x);
    assert [x] + [] == [x];
  }

  /* ---------- buildSelectionPairs ---------- */

  /** The fields used for `sobject`: its selected fields or, when none are selected
      and `includeAllWhenEmpty` holds, every cached field name. */
  function FieldsFor(sobject: string, selected: map<string, seq<string>>, cache: map<string, seq<FieldMeta>>,
                     includeAllWhenEmpty: bool): seq<string>
  {
    var fields := ListOf(selected, sobject);
    if |fields| == 0 && includeAllWhenEmpty then
      var described := if sobject in cache then cache[sobject] else [];
      seq(|described|, i requires 0 <= i < |described| => described[i].name)
    else fields
  }

  function PairsOf(sobject: string, fields: seq<string>): (r: seq<FieldRef>)
    ensures |r| == |fields| && forall i | 0 <= i < |r| :: r[i] == FieldRef(sobject, fields[i])
  {
    seq(|fields|, i requires 0 <= i < |fields| => FieldRef(sobject, fields[i]))
  }

  function PairsSpec(targets: seq<string>, selected: map<string, seq<string>>, cache: map<string, seq<FieldMeta>>,
                     includeAllWhenEmpty: bool): seq<FieldRef>
  {
    if targets == [] then []
    else
      var t := targets[|targets| - 1];
      PairsSpec(targets[..|targets| - 1], selected, cache, includeAllWhenEmpty)
        + PairsOf(t, FieldsFor(t, selected, cache, includeAllWhenEmpty))
  }

  /** A pair is produced exactly when its SObject is a target and its field is one of
      that SObject's fields. */
  lemma {:induction false} PairsMembership(targets: seq<string>, selected: map<string, seq<string>>,
                                           cache: map<string, seq<FieldMeta>>, includeAll: bool, p: FieldRef)
    ensures p in PairsSpec(targets, selected, cache, includeAll) <==>
      p.sobject in targets && p.field in FieldsFor(p.sobject, selected, cache, includeAll)
  {
    if targets != [] {
      var init := targets[..|targets| - 1];
      var t := targets[|targets| - 1];
      PairsMembership(init, selected, cache, includeAll, p);
      var own := PairsOf(t, FieldsFor(t, selected, cache, includeAll));
      assert p in own <==> p.sobject == t && p.field in FieldsFor(t, selected, cache, includeAll) by {
        if p in own {
          var i :| 0 <= i < |own| && own[i] == p;
        }
        if p.sobject == t && p.field in FieldsFor(t, selected, cache, includeAll) {
          var i :| 0 <= i < |FieldsFor(t, selected, cache, includeAll)| && FieldsFor(t, selected, cache, includeAll)[i] == p.field;
          assert own[i] == p;
        }
      }
      assert targets == init + [t];
    }
  }

  /* ---------- the SObject catalog (setSObjects) ---------- */

  /** An element of the describe-global list: `null` entries are None, missing or
      non-string members are None. */
  datatype RawSObject = RawSObject(name: Option<string>, rawLabel: Option<string>)

  /** `filter(obj => obj && obj.name).map(...)`: keep entries with a name; the label
      defaults to the name; the key is "<label> (<name>)". */
  function Normalize(raw: seq<Option<RawSObject>>): (r: seq<SObjectEntry>)
    ensures |r| <= |raw|
    ensures forall i | 0 <= i < |r| ::
      r[i].name != "" && r[i].objectLabel != "" && r[i].key == r[i].objectLabel + " (" + r[i].name + ")"
  {
    if raw == [] then []
    else
      var rest := Normalize(raw[1..]);
      match EntryOf(raw[0])
      case Some(e) => [e] + rest
      case None => rest
  }

  /** The entry one element of the list gives, or None when the filter drops it. */
  function EntryOf(o: Option<RawSObject>): Option<SObjectEntry> {
    match o
    case Some(RawSObject(Some(n), l)) =>
      if n == "" then None
      else
        var lbl := if l.Some? && l.value != "" then l.value else n;
        Some(SObjectEntry(n, lbl, lbl + " (" + n + ")"))
    case _ => None
  }

  /** The catalog entries are made in list order: the list's parts normalize on their
      own, and one element gives its entry when it has one. */
  lemma {:induction false} NormalizeAppend(a: seq<Option<RawSObject>>, b: seq<Option<RawSObject>>)
    ensures Normalize(a + b) == Normalize(a) + Normalize(b)
    ensures |a| == 1 ==> Normalize(a) == if EntryOf(a[0]).Some? then [EntryOf(a[0]).value] else []
  {
    if a != [] {
      assert (a + b)[1..] == a[1..] + b;
      NormalizeAppend(a[1..], b);
      if |a| == 1 {
        assert a[1..] == [];
      }
    } else {
      assert a + b == b;
    }
  }

  /** An entry is in the catalog exactly when some element of the list is not null,
      has a non-empty `name`, and gives the entry's name, its label (the element's
      non-empty `label`, otherwise its name) and the key "label (name)". */
  lemma {:induction false} NormalizeMembers(raw: seq<Option<RawSObject>>, e: SObjectEntry)
    ensures e in Normalize(raw) <==>
      exists i | 0 <= i < |raw| ::
        && raw[i].Some? && raw[i].value.name == Some(e.name) && e.name != ""
        && e.objectLabel == (if raw[i].value.rawLabel.Some? && raw[i].value.rawLabel.value != ""
                             then raw[i].value.rawLabel.value else e.name)
        && e.key == e.objectLabel + " (" + e.name + ")"
  {
    if raw != [] {
      NormalizeMembers(raw[1..], e);
      if exists i | 0 <= i < |raw[1..]| :: EntryOf(raw[1..][i]) == Some(e) {
        var i :| 0 <= i < |raw[1..]| && EntryOf(raw[1..][i]) == Some(e);
        assert raw[i + 1] == raw[1..][i];
      }
      forall i | 1 <= i < |raw| ensures raw[i] == raw[1..][i - 1] {
      }
    }
  }

  /** `(a, b) => a.label.localeCompare(b.label)`. */
  function LabelOrder(rt: Runtime): (SObjectEntry, SObjectEntry) -> real {
    (a: SObjectEntry, b: SObjectEntry) => rt.localeCompare(a.objectLabel, b.objectLabel) as real
  }

  /** The sorted catalog. */
  function Catalog(raw: seq<Option<RawSObject>>, rt: Runtime): seq<SObjectEntry> {
    Sort(Normalize(raw), LabelOrder(rt))
  }

  lemma LabelOrderConsistent(rt: Runtime, u: seq<SObjectEntry>)
    requires ConsistentCollation(rt)
    ensures ConsistentOn(LabelOrder(rt), u)
  {
    var cmp := LabelOrder(rt);
    forall a, b | a in u && b in u ensures (cmp(a, b) < 0.0) == (cmp(b, a) > 0.0) {
      assert (rt.localeCompare(a.objectLabel, b.objectLabel) < 0) ==
             (rt.localeCompare(b.objectLabel, a.objectLabel) > 0);
    }
    forall a, b, c | a in u && b in u && c in u && cmp(a, b) <= 0.0 && cmp(b, c) <= 0.0
      ensures cmp(a, c) <= 0.0
    {
      assert rt.localeCompare(a.objectLabel, b.objectLabel) <= 0;
      assert rt.localeCompare(b.objectLabel, c.objectLabel) <= 0;
    }
  }

  /** The catalog holds the named entries, ordered by label. */
  lemma CatalogSorted(raw: seq<Option<RawSObject>>, rt: Runtime)
    requires ConsistentCollation(rt)
    ensures multiset(Catalog(raw, rt)) == multiset(Normalize(raw))
    ensures forall i, j | 0 <= i < j < |Catalog(raw, rt)| ::
      rt.localeCompare(Catalog(raw, rt)[i].objectLabel, Catalog(raw, rt)[j].objectLabel) <= 0
  {
    var u := Normalize(raw);
    LabelOrderConsistent(rt, u);
    SortPermutes(u, LabelOrder(rt));
    SortSorted(u, LabelOrder(rt), u);
    var r := Catalog(raw, rt);
    forall i, j | 0 <= i < j < |r|
      ensures rt.localeCompare(r[i].objectLabel, r[j].objectLabel) <= 0
    {
      assert LabelOrder(rt)(r[i], r[j]) <= 0.0;
    }
  }

  function Names(entries: seq<SObjectEntry>): set<string> {
    set i | 0 <= i < |entries| :: entries[i].name
  }

  /** `state.selectedSObjects.filter((name) => validNames.has(name))`. */
  function KeepNamed(selected: seq<string>, names: set<string>): (r: seq<string>)
    ensures forall x :: x in r <==> x in selected && x in names
    ensures |r| <= |selected|
  {
    if selected == [] then []
    else
      assert forall x :: x in selected <==> x == selected[0] || x in selected[1..] by {
        assert selected == [selected[0]] + selected[1..];
      }
      (if selected[0] in names then [selected[0]] else []) + KeepNamed(selected[1..], names)
  }

  /* ---------- the target SObjects of handleProcessSelections ---------- */

  /** The catalog entry's name or label equals the filter text, ignoring ASCII case. */
  predicate NamedBy(o: SObjectEntry, filterValue: string) {
    LowerCase(o.name) == LowerCase(filterValue) || LowerCase(o.objectLabel) == LowerCase(filterValue)
  }

  /** `state.sobjects.find(...)`: the first catalog entry the filter text names. */
  function FilterMatch(sobjects: seq<SObjectEntry>, filterValue: string): (r: Option<SObjectEntry>)
    ensures r.None? <==> forall i | 0 <= i < |sobjects| :: !NamedBy(sobjects[i], filterValue)
    ensures r.Some? ==> exists i | 0 <= i < |sobjects| ::
      sobjects[i] == r.value && NamedBy(r.value, filterValue) &&
      forall j | 0 <= j < i :: !NamedBy(sobjects[j], filterValue)
  {
    match FindIndex(sobjects, (o: SObjectEntry) => NamedBy(o, filterValue))
    case None => None
    case Some(i) => Some(sobjects[i])
  }

  /** The selected SObjects, or else the catalog entry the trimmed filter text names. */
  function ResolveTargets(selected: seq<string>, sobjects: seq<SObjectEntry>, filterText: string): (r: seq<string>)
    ensures |selected| > 0 ==> r == selected
    ensures |selected| == 0 && Trim(filterText) == "" ==> r == []
    ensures |selected| == 0 && Trim(filterText) != "" ==>
      (r != [] <==> FilterMatch(sobjects, Trim(filterText)).Some?) &&
      (r != [] ==> r == [FilterMatch(sobjects, Trim(filterText)).value.name])
  {
    var filterValue := Trim(filterText);
    if |selected| > 0 then selected
    else if filterValue == "" then []
    else
      match FilterMatch(sobjects, filterValue)
      case Some(o) => [o.name]
      case None => []
  }

  /* ---------- handleProcessSelections ---------- */

  /** `selections.filter(({sobject, field}) => meta && isFilterableField(meta)).length`. */
  function TotalRequests(pairs: seq<FieldRef>, cache: map<string, seq<FieldMeta>>): nat {
    if pairs == [] then 0
    else
      var p := pairs[|pairs| - 1];
      var meta := FindField(if p.sobject in cache then cache[p.sobject] else [], p.field);
      TotalRequests(pairs[..|pairs| - 1], cache) + (if meta.Some? && IsFilterableField(meta) then 1 else 0)
  }

  function DetailsOf(pairs: seq<FieldRef>, sobjects: seq<SObjectEntry>, cache: map<string, seq<FieldMeta>>): (r: seq<BatchDetail>)
    ensures |r| == |pairs|
  {
    seq(|pairs|, i requires 0 <= i < |pairs| => MakeDetail(pairs[i], sobjects, cache))
  }

  /** The announced total is the number of requestable details. */
  lemma {:induction false} TotalIsRequestable(pairs: seq<FieldRef>, sobjects: seq<SObjectEntry>, cache: map<string, seq<FieldMeta>>)
    ensures TotalRequests(pairs, cache) == |RequestableDetails(DetailsOf(pairs, sobjects, cache))|
  {
    if pairs != [] {
      var n := |pairs| - 1;
      TotalIsRequestable(pairs[..n], sobjects, cache);
      var details := DetailsOf(pairs, sobjects, cache);
      assert details[..n] == DetailsOf(pairs[..n], sobjects, cache);
      var p := pairs[n];
      var meta := FindField(if p.sobject in cache then cache[p.sobject] else [], p.field);
      assert details[n].metadata == meta;
      assert RequestableDetails(details) ==
        RequestableDetails(details[..n]) + (if Requestable(details[n]) then [details[n]] else []);
    }
  }

  /** How `handleProcessSelections` ends. */
  datatype ProcessOutcome =
    | Rejected(message: string)
    | Processed(results: seq<ResultEntry>, completed: nat, totalRequests: nat, progress: seq<nat>)
    | NoResults

  const NoTargetMessage := "Select at least one SObject before processing."
  const NoFieldsMessage := "No fields available to process."

  function LoadFailedMessage(message: string): string {
    "Unable to load fields: " + message
  }

  /** The field cache after `ensureFieldsLoaded(targets)`: every target not yet
      cached whose describe succeeds is added, in target order. */
  function LoadedCache(cache: map<string, seq<FieldMeta>>, targets: seq<string>,
                       describe: string -> Result<seq<FieldMeta>, string>): map<string, seq<FieldMeta>>
  {
    if targets == [] then cache
    else
      var c := LoadedCache(cache, targets[..|targets| - 1], describe);
      var t := targets[|targets| - 1];
      if t !in c && describe(t).Success? then c[t := describe(t).value] else c
  }

  /** The error `ensureFieldsLoaded(targets)` reports: the failure of the first target
      not yet cached whose describe fails. */
  function LoadFailure(cache: map<string, seq<FieldMeta>>, targets: seq<string>,
                       describe: string -> Result<seq<FieldMeta>, string>): Option<string>
  {
    if targets == [] then None
    else
      match LoadFailure(cache, targets[..|targets| - 1], describe)
      case Some(m) => Some(m)
      case None =>
        var t := targets[|targets| - 1];
        if t !in cache && describe(t).Failure? then Some(describe(t).error) else None
  }

  /** Loading keeps every cached entry, adds exactly the targets whose describe
      succeeds, and adds each with its describe result. */
  lemma {:induction false} LoadedCacheEffect(cache: map<string, seq<FieldMeta>>, targets: seq<string>,
                                             describe: string -> Result<seq<FieldMeta>, string>)
    ensures forall t | t in cache ::
      t in LoadedCache(cache, targets, describe) && LoadedCache(cache, targets, describe)[t] == cache[t]
    ensures forall t | t in LoadedCache(cache, targets, describe) && t !in cache ::
      t in targets && describe(t) == Success(LoadedCache(cache, targets, describe)[t])
    ensures forall t | t in targets && describe(t).Success? :: t in LoadedCache(cache, targets, describe)
  {
    if targets != [] {
      var n := |targets| - 1;
      LoadedCacheEffect(cache, targets[..n], describe);
      assert forall t | t in targets :: t in targets[..n] || t == targets[n] by {
        assert targets == targets[..n] + [targets[n]];
      }
    }
  }

  /** Loading fails exactly when some target not yet cached fails to describe, and the
      error is the failure of the first such target. */
  lemma LoadFailureIff(cache: map<string, seq<FieldMeta>>, targets: seq<string>,
                       describe: string -> Result<seq<FieldMeta>, string>)
    ensures LoadFailure(cache, targets, describe).None? <==>
      forall t | t in targets && t !in cache :: describe(t).Success?
    ensures LoadFailure(cache, targets, describe).Some? ==> exists i | 0 <= i < |targets| ::
      && targets[i] !in cache
      && describe(targets[i]) == Failure(LoadFailure(cache, targets, describe).value)
      && forall j | 0 <= j < i :: targets[j] in cache || describe(targets[j]).Success?
  {
    LoadSucceeds(cache, targets, describe);
    if LoadFailure(cache, targets, describe).Some? {
      FirstLoadFailure(cache, targets, describe);
    }
  }

  lemma {:induction false} LoadSucceeds(cache: map<string, seq<FieldMeta>>, targets: seq<string>,
                                        describe: string -> Result<seq<FieldMeta>, string>)
    ensures LoadFailure(cache, targets, describe).None? <==>
      forall t | t in targets && t !in cache :: describe(t).Success?
  {
    if targets != [] {
      var n := |targets| - 1;
      LoadSucceeds(cache, targets[..n], describe);
      assert forall t | t in targets :: t in targets[..n] || t == targets[n] by {
        assert targets == targets[..n] + [targets[n]];
      }
    }
  }

  lemma {:induction false} FirstLoadFailure(cache: map<string, seq<FieldMeta>>, targets: seq<string>,
                                            describe: string -> Result<seq<FieldMeta>, string>)
    requires LoadFailure(cache, targets, describe).Some?
    ensures exists i | 0 <= i < |targets| ::
      && targets[i] !in cache
      && describe(targets[i]) == Failure(LoadFailure(cache, targets, describe).value)
      && forall j | 0 <= j < i :: targets[j] in cache || describe(targets[j]).Success?
  {
    var n := |targets| - 1;
    var prefix := targets[..n];
    if LoadFailure(cache, prefix, describe).Some? {
      FirstLoadFailure(cache, prefix, describe);
      var i :| 0 <= i < n && prefix[i] !in cache
        && describe(prefix[i]) == Failure(LoadFailure(cache, prefix, describe).value)
        && forall j | 0 <= j < i :: prefix[j] in cache || describe(prefix[j]).Success?;
      assert targets[i] == prefix[i];
      assert forall j | 0 <= j < i :: targets[j] == prefix[j];
    } else {
      LoadSucceeds(cache, prefix, describe);
      assert forall j | 0 <= j < n :: targets[j] == prefix[j] && prefix[j] in prefix;
    }
  }

  /** `handleProcessSelections` from the state it starts in: resolve the targets,
      load their fields, build the pairs (every cached field when none is selected)
      and run the batches. */
  function ProcessSpec(sobjects: seq<SObjectEntry>, cache: map<string, seq<FieldMeta>>,
                       selectedSObjects: seq<string>, selectedFields: map<string, seq<string>>,
                       filterText: string, describe: string -> Result<seq<FieldMeta>, string>,
                       call: nat -> CallResult, rt: Runtime): ProcessOutcome
  {
    var targets := ResolveTargets(selectedSObjects, sobjects, filterText);
    if targets == [] then Rejected(NoTargetMessage)
    else
      match LoadFailure(cache, targets, describe)
      case Some(m) => Rejected(LoadFailedMessage(m))
      case None =>
        var loaded := LoadedCache(cache, targets, describe);
        var pairs := PairsSpec(targets, selectedFields, loaded, true);
        if pairs == [] then Rejected(NoFieldsMessage)
        else
          var details := DetailsOf(pairs, sobjects, loaded);
          var total := TotalRequests(pairs, loaded);
          var results := RunSpec(details, call, rt);
          var completed := |RequestableDetails(details)|;
          if results == [] then NoResults
          else Processed(results, completed, total, if total > 0 then Counts(completed) else [])
  }

  /** The three ways a run is turned down: no target, a failed describe of a target
      not yet cached (the first one's message), or no field to process. */
  lemma ProcessRejections(sobjects: seq<SObjectEntry>, cache: map<string, seq<FieldMeta>>,
                          selectedSObjects: seq<string>, selectedFields: map<string, seq<string>>,
                          filterText: string, describe: string -> Result<seq<FieldMeta>, string>,
                          call: nat -> CallResult, rt: Runtime)
    ensures var targets := ResolveTargets(selectedSObjects, sobjects, filterText);
      var r := ProcessSpec(sobjects, cache, selectedSObjects, selectedFields, filterText, describe, call, rt);
      && (targets == [] ==> r == Rejected(NoTargetMessage))
      && (targets != [] && (exists t | t in targets && t !in cache :: describe(t).Failure?) ==>
            exists i | 0 <= i < |targets| ::
              && targets[i] !in cache && describe(targets[i]).Failure?
              && r == Rejected(LoadFailedMessage(describe(targets[i]).error))
              && forall j | 0 <= j < i :: targets[j] in cache || describe(targets[j]).Success?)
      && (targets != [] && (forall t | t in targets && t !in cache :: describe(t).Success?) &&
          PairsSpec(targets, selectedFields, LoadedCache(cache, targets, describe), true) == [] ==>
            r == Rejected(NoFieldsMessage))
  {
    var targets := ResolveTargets(selectedSObjects, sobjects, filterText);
    LoadFailureIff(cache, targets, describe);
  }

  /** A run whose targets resolve, whose fields load and which has pairs is
      processed: one row per pair from the batch run, the counter ending at the
      announced total, and progress 1, 2, …, total when calls are expected. The
      "No results to display." branch is never taken. */
  lemma ProcessedRun(sobjects: seq<SObjectEntry>, cache: map<string, seq<FieldMeta>>,
                     selectedSObjects: seq<string>, selectedFields: map<string, seq<string>>,
                     filterText: string, describe: string -> Result<seq<FieldMeta>, string>,
                     call: nat -> CallResult, rt: Runtime)
    ensures !ProcessSpec(sobjects, cache, selectedSObjects, selectedFields, filterText, describe, call, rt).NoResults?
    ensures var targets := ResolveTargets(selectedSObjects, sobjects, filterText);
      var r := ProcessSpec(sobjects, cache, selectedSObjects, selectedFields, filterText, describe, call, rt);
      var loaded := LoadedCache(cache, targets, describe);
      var pairs := PairsSpec(targets, selectedFields, loaded, true);
      targets != [] && (forall t | t in targets && t !in cache :: describe(t).Success?) && pairs != [] ==>
        && r.Processed?
        && r.results == RunSpec(DetailsOf(pairs, sobjects, loaded), call, rt)
        && |r.results| == |pairs|
        && r.completed == r.totalRequests == TotalRequests(pairs, loaded)
        && r.progress == (if r.totalRequests > 0 then Counts(r.totalRequests) else [])
  {
    var targets := ResolveTargets(selectedSObjects, sobjects, filterText);
    LoadFailureIff(cache, targets, describe);
    var loaded := LoadedCache(cache, targets, describe);
    var pairs := PairsSpec(targets, selectedFields, loaded, true);
    var details := DetailsOf(pairs, sobjects, loaded);
    RunLength(details, call, rt);
    TotalIsRequestable(pairs, sobjects, loaded);
  }

  class PopupState {
    var sobjects: seq<SObjectEntry>
    var fieldCache: map<string, seq<FieldMeta>>
    var selectedSObjects: seq<string>
    var selectedFields: map<string, seq<string>>

    ghost predicate Valid()
      reads this
    {
      ValidSelection(selectedFields)
    }

    /** The initial state: nothing loaded, nothing selected. */
    constructor ()
      ensures Valid()
      ensures sobjects == [] && fieldCache == map[] && selectedSObjects == [] && selectedFields == map[]
    {
      sobjects := [];
      fieldCache := map[];
      selectedSObjects := [];
      selectedFields := map[];
    }

    /** `handleAddFields` on the chosen option values. */
    method AddFields(values: seq<string>) returns (changed: bool)
      requires Valid()
      modifies this
      ensures Valid()
      ensures (selectedFields, changed) == AddFieldsSpec(old(selectedFields), values)
      ensures sobjects == old(sobjects) && fieldCache == old(fieldCache) && selectedSObjects == old(selectedSObjects)
    {
      changed := false;
      if |values| == 0 {
        return;
      }
      ghost var m0 := selectedFields;
      var i := 0;
      while i < |values|
        invariant 0 <= i <= |values|
        invariant (selectedFields, changed) == AddFieldsSpec(m0, values[..i])
        invariant sobjects == old(sobjects) && fieldCache == old(fieldCache) && selectedSObjects == old(selectedSObjects)
      {
        assert values[..i + 1][..i] == values[..i];
        var parsed := ParseFieldKey(values[i]);
        if parsed.Some? {
          var s, f := parsed.value.sobject, parsed.value.field;
          var current := Dedup(ListOf(selectedFields, s));
          if f !in current {
            selectedFields := selectedFields[s := current + [f]];
            changed := true;
          }
        }
        i := i + 1;
      }
      assert values[..i] == values;
      AddFieldsValid(m0, values);
    }

    /** `handleRemoveFields` on the chosen option values. */
    method RemoveFields(values: seq<string>) returns (changed: bool)
      requires Valid()
      modifies this
      ensures Valid()
      ensures (selectedFields, changed) == RemoveFieldsSpec(old(selectedFields), values)
      ensures sobjects == old(sobjects) && fieldCache == old(fieldCache) && selectedSObjects == old(selectedSObjects)
    {
      changed := false;
      if |values| == 0 {
        return;
      }
      ghost var m0 := selectedFields;
      var i := 0;
      while i < |values|
        invariant 0 <= i <= |values|
        invariant (selectedFields, changed) == RemoveFieldsSpec(m0, values[..i])
        invariant sobjects == old(sobjects) && fieldCache == old(fieldCache) && selectedSObjects == old(selectedSObjects)
      {
        assert values[..i + 1][..i] == values[..i];
        var parsed := ParseFieldKey(values[i]);
        if parsed.Some? {
          var s, f := parsed.value.sobject, parsed.value.field;
          var current := Dedup(ListOf(selectedFields, s));
          if f in current {
            changed := true;
            var rest := Without(current, f);
            if |rest| == 0 {
              selectedFields := selectedFields - {s};
            } else {
              selectedFields := selectedFields[s := rest];
            }
          }
        }
        i := i + 1;
      }
      assert values[..i] == values;
      RemoveFieldsValid(m0, values);
    }

    /** `setSObjects`: install the sorted catalog and drop selections of SObjects it
        no longer names. */
    method SetSObjects(raw: seq<Option<RawSObject>>, rt: Runtime)
      requires Valid()
      modifies this
      ensures Valid()
      ensures sobjects == Catalog(raw, rt)
      ensures selectedSObjects == KeepNamed(old(selectedSObjects), Names(sobjects))
      ensures selectedFields == map k | k in old(selectedFields) && k in Names(sobjects) :: old(selectedFields)[k]
      ensures fieldCache == old(fieldCache)
    {
      sobjects := Catalog(raw, rt);
      var validNames := Names(sobjects);
      selectedSObjects := KeepNamed(selectedSObjects, validNames);
      selectedFields := map k | k in selectedFields && k in validNames :: selectedFields[k];
    }

    /** `buildSelectionPairs(includeAllWhenEmpty, targets)`. */
    method BuildSelectionPairs(includeAllWhenEmpty: bool, targets: seq<string>) returns (pairs: seq<FieldRef>)
      ensures pairs == PairsSpec(targets, selectedFields, fieldCache, includeAllWhenEmpty)
    {
      pairs := [];
      var i := 0;
      while i < |targets|
        invariant 0 <= i <= |targets|
        invariant pairs == PairsSpec(targets[..i], selectedFields, fieldCache, includeAllWhenEmpty)
      {
        assert targets[..i + 1][..i] == targets[..i];
        var sobject := targets[i];
        var fields := FieldsFor(sobject, selectedFields, fieldCache, includeAllWhenEmpty);
        ghost var before := pairs;
        var j := 0;
        while j < |fields|
          invariant 0 <= j <= |fields|
          invariant pairs == before + PairsOf(sobject, fields[..j])
        {
          assert PairsOf(sobject, fields[..j + 1]) == PairsOf(sobject, fields[..j]) + [FieldRef(sobject, fields[j])];
          pairs := pairs + [FieldRef(sobject, fields[j])];
          j := j + 1;
        }
        assert fields[..j] == fields;
        i := i + 1;
      }
      assert targets[..i] == targets;
    }

    /** `ensureFieldsLoaded(targets)`: describe every target not yet cached; each
        describe that succeeds is cached, and the first failure (in target order) is
        reported. */
    method EnsureFieldsLoaded(targets: seq<string>, describe: string -> Result<seq<FieldMeta>, string>)
      returns (err: Option<string>)
      modifies this
      ensures err.None? ==> forall t | t in targets :: t in fieldCache
      ensures err.Some? ==> exists t | t in targets :: t !in old(fieldCache) && describe(t) == Failure(err.value)
      ensures forall t | t in old(fieldCache) :: t in fieldCache && fieldCache[t] == old(fieldCache)[t]
      ensures forall t | t in fieldCache && t !in old(fieldCache) :: t in targets && describe(t) == Success(fieldCache[t])
      ensures sobjects == old(sobjects) && selectedSObjects == old(selectedSObjects) && selectedFields == old(selectedFields)
      ensures fieldCache == LoadedCache(old(fieldCache), targets, describe)
      ensures err == LoadFailure(old(fieldCache), targets, describe)
    {
      err := None;
      var i := 0;
      while i < |targets|
        invariant 0 <= i <= |targets|
        invariant err.None? ==> forall t | t in targets[..i] :: t in fieldCache
        invariant err.Some? ==> exists t | t in targets :: t !in old(fieldCache) && describe(t) == Failure(err.value)
        invariant forall t | t in old(fieldCache) :: t in fieldCache && fieldCache[t] == old(fieldCache)[t]
        invariant forall t | t in fieldCache && t !in old(fieldCache) :: t in targets && describe(t) == Success(fieldCache[t])
        invariant sobjects == old(sobjects) && selectedSObjects == old(selectedSObjects) && selectedFields == old(selectedFields)
        invariant fieldCache == LoadedCache(old(fieldCache), targets[..i], describe)
        invariant err == LoadFailure(old(fieldCache), targets[..i], describe)
      {
        assert targets[..i + 1][..i] == targets[..i];
        var t := targets[i];
        if t !in fieldCache {
          match describe(t)
          case Success(fields) =>
            fieldCache := fieldCache[t := fields];
          case Failure(msg) =>
            if err.None? {
              err := Some(msg);
            }
        }
        i := i + 1;
      }
      assert targets[..i] == targets;
    }

    /** `handleProcessSelections`: resolve the targets, load their fields, build the
        selections and run the batches. `describe` answers the describe calls and
        `call(c)` the c-th composite call. */
    method ProcessSelections(filterText: string, describe: string -> Result<seq<FieldMeta>, string>,
                             call: nat -> CallResult, rt: Runtime)
      returns (r: ProcessOutcome)
      modifies this
      ensures r == ProcessSpec(old(sobjects), old(fieldCache), old(selectedSObjects), old(selectedFields),
                               filterText, describe, call, rt)
      ensures fieldCache == LoadedCache(old(fieldCache), ResolveTargets(old(selectedSObjects), old(sobjects), filterText), describe)
      ensures sobjects == old(sobjects) && selectedSObjects == old(selectedSObjects) && selectedFields == old(selectedFields)
    {
      var targets := ResolveTargets(selectedSObjects, sobjects, filterText);
      if |targets| == 0 {
        return Rejected(NoTargetMessage);
      }
      var err := EnsureFieldsLoaded(targets, describe);
      if err.Some? {
        return Rejected(LoadFailedMessage(err.value));
      }
      var pairs := BuildSelectionPairs(true, targets);
      if |pairs| == 0 {
        return Rejected(NoFieldsMessage);
      }
      var total := TotalRequests(pairs, fieldCache);
      var details := DetailsOf(pairs, sobjects, fieldCache);
      var results, completed, calls, progress := Run(details, total, call, rt);
      if |results| > 0 {
        r := Processed(results, completed, total, progress);
      } else {
        r := NoResults;
      }
    }
  }
}

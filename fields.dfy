/** Field keys (`"<sobject>:<field>"`, the option values of the field lists), field
    metadata as cached from a describe call, and the rule that decides whether a field
    can be used in a `WHERE … != null` filter. */
module Fields {
  import opened Wrappers
  import opened JsValues

  /** What `parseFieldKey` returns: `{ sobject, field }`. */
  datatype FieldRef = FieldRef(sobject: string, field: string)

  /** One cached describe entry: `{ name, label, type }`; `fieldType` is None when
      the describe result carried no (or an empty) type. */
  datatype FieldMeta = FieldMeta(name: string, fieldLabel: string, fieldType: Option<string>)

  /** `s.split(sep)` for a one-character separator. */
  function Split(s: string, sep: char): (parts: seq<string>)
    ensures |parts| >= 1
    ensures forall i | 0 <= i < |parts| :: sep !in parts[i]
    ensures (sep in s) <==> |parts| >= 2
    decreases |s|
  {
    match IndexOf(s, sep)
    case None => [s]
    case Some(i) =>
      var rest := Split(s[i + 1..], sep);
      [s[..i]] + rest
  }

  /** Joining the parts with the separator gives the string back. */
  lemma {:induction false} SplitJoin(s: string, sep: char)
    ensures Join(Split(s, sep), [sep]) == s
    decreases |s|
  {
    match IndexOf(s, sep)
    case None =>
    case Some(i) =>
      var rest := Split(s[i + 1..], sep);
      SplitJoin(s[i + 1..], sep);
      assert Split(s, sep) == [s[..i]] + rest;
      JoinCons(s[..i], rest, [sep]);
      assert s == s[..i] + [sep] + s[i + 1..];
  }

  lemma JoinCons(p: string, rest: seq<string>, sep: string)
    requires |rest| >= 1
    ensures Join([p] + rest, sep) == p + sep + Join(rest, sep)
  {
    assert ([p] + rest)[1..] == rest;
  }

  /** `buildFieldKey(sobject, field)`. */
  function BuildFieldKey(sobject: string, field: string): string {
    sobject + ":" + field
  }

  /** `parseFieldKey(value)`: the text before the first ':' and the text between the
      first and the second ':' (or the end), when both are non-empty. */
  function ParseFieldKey(value: string): (r: Option<FieldRef>)
    ensures ':' !in value ==> r.None?
    ensures r.Some? ==> r.value.sobject != "" && r.value.field != ""
    ensures r.Some? ==> ':' !in r.value.sobject && ':' !in r.value.field
  {
    if value == "" || IndexOf(value, ':').None? then None
    else
      var parts := Split(value, ':');
      if parts[0] == "" || parts[1] == "" then None
      else Some(FieldRef(parts[0], parts[1]))
  }

  /** Parsing a key built from two non-empty, colon-free names gives them back. */
  lemma ParseBuild(sobject: string, field: string)
    requires sobject != "" && field != ""
    requires ':' !in sobject && ':' !in field
    ensures ParseFieldKey(BuildFieldKey(sobject, field)) == Some(FieldRef(sobject, field))
  {
    var key := BuildFieldKey(sobject, field);
    var i := |sobject|;
    assert key[..i] == sobject && key[i] == ':' && key[i + 1..] == field;
    assert IndexOf(key, ':') == Some(i);
    assert Split(field, ':') == [field];
    assert Split(key, ':') == [sobject] + [field];
  }

  /** The first part of a split: everything before the first separator. */
  function FirstPart(s: string, sep: char): string {
    match IndexOf(s, sep)
    case None => s
    case Some(i) => s[..i]
  }

  lemma SplitFirst(s: string, sep: char)
    ensures Split(s, sep)[0] == FirstPart(s, sep)
  {
  }

  /** Splitting at the first separator: the text before it, then the parts of the rest. */
  lemma SplitAtFirst(s: string, sep: char, i: nat)
    requires IndexOf(s, sep) == Some(i)
    ensures Split(s, sep) == [s[..i]] + Split(s[i + 1..], sep)
  {
  }

  /** The two parts `parseFieldKey` destructures, for a value containing ':'. */
  lemma ParseParts(value: string)
    requires ':' in value
    ensures var i := IndexOf(value, ':').value;
      ParseFieldKey(value) ==
        if value[..i] == "" || FirstPart(value[i + 1..], ':') == "" then None
        else Some(FieldRef(value[..i], FirstPart(value[i + 1..], ':')))
  {
    var i := IndexOf(value, ':').value;
    var tail := value[i + 1..];
    SplitAtFirst(value, ':', i);
    SplitFirst(tail, ':');
    assert Split(value, ':')[0] == value[..i];
    assert Split(value, ':')[1] == Split(tail, ':')[0];
  }

  /** A successful parse names a prefix of the value: the whole value, or the value
      cut at a second ':' (whatever follows it is ignored). */
  lemma ParseIsPrefix(value: string)
    ensures ParseFieldKey(value).Some? ==>
      var k := BuildFieldKey(ParseFieldKey(value).value.sobject, ParseFieldKey(value).value.field);
      value == k || (|k| < |value| && value[..|k| + 1] == k + ":")
  {
    if ParseFieldKey(value).Some? {
      ParseParts(value);
      var i := IndexOf(value, ':').value;
      var head, tail := value[..i], value[i + 1..];
      SplitAround(value, i);
      KeyPrefix(head, tail);
    }
  }

  lemma SplitAround(s: string, i: nat)
    requires i < |s|
    ensures s == s[..i] + [s[i]] + s[i + 1..]
  {
  }

  /** `head:tail` starts with `head:` followed by the first part of `tail`, and either
      ends there or continues with ':'. */
  lemma KeyPrefix(head: string, tail: string)
    ensures var k := head + ":" + FirstPart(tail, ':'); var v := head + ":" + tail;
      v == k || (|k| < |v| && v[..|k| + 1] == k + ":")
  {
    match IndexOf(tail, ':')
    case None =>
    case Some(j) =>
      PrefixThroughSeparator(head, tail, j);
  }

  lemma PrefixThroughSeparator(head: string, tail: string, j: nat)
    requires j < |tail| && tail[j] == ':'
    ensures (head + ":" + tail)[..|head| + 1 + j + 1] == head + ":" + tail[..j] + ":"
  {
    assert tail[..j + 1] == tail[..j] + ":";
  }

  /** The first part is empty exactly when the text is empty or starts with the
      separator. */
  lemma FirstPartEmpty(s: string, sep: char)
    ensures FirstPart(s, sep) == "" <==> (s == [] || s[0] == sep)
  {
    if s != [] && s[0] == sep {
      assert IndexOf(s, sep) == Some(0);
    }
  }

  /** Parsing fails exactly when there is no ':', the value starts with ':', or the
      first ':' is the last character or is followed by another ':'. */
  lemma ParseFails(value: string)
    ensures ParseFieldKey(value).None? <==>
      (':' !in value ||
       var i := IndexOf(value, ':').value; i == 0 || i + 1 == |value| || value[i + 1] == ':')
  {
    if ':' in value {
      ParseParts(value);
      EmptyParts(value, IndexOf(value, ':').value);
    }
  }

  lemma EmptyParts(value: string, i: nat)
    requires i < |value|
    ensures (value[..i] == "" || FirstPart(value[i + 1..], ':') == "") <==>
      (i == 0 || i + 1 == |value| || value[i + 1] == ':')
  {
    var tail := value[i + 1..];
    FirstPartEmpty(tail, ':');
    assert tail != [] ==> tail[0] == value[i + 1];
  }

  /** `getFieldMetadata`: the first cached field with that name (`Array.prototype.find`). */
  function FindField(fields: seq<FieldMeta>, name: string): (r: Option<FieldMeta>)
    ensures r.None? <==> forall i | 0 <= i < |fields| :: fields[i].name != name
    ensures r.Some? ==> exists i | 0 <= i < |fields| ::
      fields[i] == r.value && r.value.name == name && forall j | 0 <= j < i :: fields[j].name != name
  {
    match FindIndex(fields, (f: FieldMeta) => f.name == name)
    case None => None
    case Some(i) => Some(fields[i])
  }

  /** An entry of the SObject list: `{ name, label, key }`. */
  datatype SObjectEntry = SObjectEntry(name: string, objectLabel: string, key: string)

  /** `getSObjectLabel(apiName)`: "<label> (<name>)" of the first SObject with that
      name, or the API name itself when the list has none. */
  function SObjectLabel(sobjects: seq<SObjectEntry>, apiName: string): (r: string)
    ensures (forall i | 0 <= i < |sobjects| :: sobjects[i].name != apiName) ==> r == apiName
    ensures (exists i | 0 <= i < |sobjects| :: sobjects[i].name == apiName) ==>
      exists i | 0 <= i < |sobjects| :: sobjects[i].name == apiName &&
        (forall j | 0 <= j < i :: sobjects[j].name != apiName) &&
        r == sobjects[i].objectLabel + " (" + apiName + ")"
  {
    match FindIndex(sobjects, (o: SObjectEntry) => o.name == apiName)
    case None => apiName
    case Some(i) => sobjects[i].objectLabel + " (" + sobjects[i].name + ")"
  }

  /** `isFilterableField`: a field with no metadata or no type is assumed filterable;
      otherwise its lower-cased type must be neither "textarea" nor "address". */
  predicate IsFilterableField(meta: Option<FieldMeta>) {
    if meta.None? || meta.value.fieldType.None? || meta.value.fieldType.value == "" then true
    else
      var t := LowerCase(meta.value.fieldType.value);
      t != "textarea" && t != "address"
  }

  /** Not filterable exactly when the type, ignoring ASCII case, is textarea or address. */
  lemma NotFilterableIff(meta: Option<FieldMeta>)
    ensures !IsFilterableField(meta) <==>
      meta.Some? && meta.value.fieldType.Some? &&
      (LowerCase(meta.value.fieldType.value) == "textarea" ||
       LowerCase(meta.value.fieldType.value) == "address")
  {
  }

  /** Filterability depends on the letters of the type only, not their case. */
  lemma FilterableIgnoresCase(name: string, lbl: string, t: string, t': string)
    requires |t| == |t'| && forall i | 0 <= i < |t| :: LowerChar(t[i]) == LowerChar(t'[i])
    ensures IsFilterableField(Some(FieldMeta(name, lbl, Some(t))))
         == IsFilterableField(Some(FieldMeta(name, lbl, Some(t'))))
  {
    assert LowerCase(t) == LowerCase(t');
  }
}

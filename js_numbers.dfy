/** `ToNumber` as a relational comparison with a number applies it to a JSON value
    (section 7.1.4 of ECMA-262): `null`, booleans and numbers convert directly, strings
    are read as a StringNumericLiteral (section 7.1.4.1.1), and arrays and objects
    are first turned into a string by ToPrimitive. Finite values are exact reals,
    where a double would round. */
module JsNumbers {
  import opened Wrappers
  import opened JsValues

  /** A JavaScript number: NaN, a finite value, or an infinity. */
  datatype Number = NaN | Finite(value: real) | Infinite(negative: bool)

  /** The value of a hexadecimal digit; the decimal, octal and binary digits are
      among them. */
  function HexDigit(c: char): Option<nat> {
    if '0' <= c <= '9' then Some(c as int - '0' as int)
    else if 'a' <= c <= 'f' then Some(c as int - 'a' as int + 10)
    else if 'A' <= c <= 'F' then Some(c as int - 'A' as int + 10)
    else None
  }

  predicate IsDigit(c: char, radix: nat) {
    HexDigit(c).Some? && HexDigit(c).value < radix
  }

  /** The value of a digit string in the radix, most significant digit first; None
      when it is empty or holds a character that is not a digit of the radix. */
  function DigitsValue(s: string, radix: nat): (r: Option<nat>)
    ensures r.Some? <==> s != [] && forall i | 0 <= i < |s| :: IsDigit(s[i], radix)
  {
    if s == [] then None
    else
      var n := |s| - 1;
      if !IsDigit(s[n], radix) then None
      else if n == 0 then Some(HexDigit(s[n]).value)
      else
        match DigitsValue(s[..n], radix)
        case None => None
        case Some(v) => Some(v * radix + HexDigit(s[n]).value)
  }

  function Pow10(e: nat): (r: nat)
    ensures r >= 1
  {
    if e == 0 then 1 else 10 * Pow10(e - 1)
  }

  /** x · 10^e. */
  function Scale(x: real, e: int): real {
    if e >= 0 then x * Pow10(e) as real else x / Pow10(-e) as real
  }

  /** The SignedInteger after an exponent mark: `digits`, `+digits` or `-digits`. */
  function ExponentValue(s: string): Option<int> {
    if s != [] && (s[0] == '+' || s[0] == '-') then
      match DigitsValue(s[1..], 10)
      case None => None
      case Some(v) =>
        var e: int := v;
        Some(if s[0] == '-' then -e else e)
    else
      match DigitsValue(s, 10)
      case None => None
      case Some(v) => Some(v)
  }

  /** A mantissa: `digits`, `digits.`, `digits.digits` or `.digits`. */
  function MantissaValue(s: string): Option<real> {
    match IndexOf(s, '.')
    case None =>
      (match DigitsValue(s, 10)
       case None => None
       case Some(v) => Some(v as real))
    case Some(k) =>
      var whole := s[..k];
      var frac := s[k + 1..];
      if whole == [] && frac == [] then None
      else if whole != [] && DigitsValue(whole, 10).None? then None
      else if frac != [] && DigitsValue(frac, 10).None? then None
      else
        var w := if whole == [] then 0 else DigitsValue(whole, 10).value;
        var f := if frac == [] then 0 else DigitsValue(frac, 10).value;
        Some(w as real + f as real / Pow10(|frac|) as real)
  }

  /** A StrUnsignedDecimalLiteral: `Infinity`, or a mantissa with an optional exponent
      marked by `e` or `E`. */
  function UnsignedDecimal(s: string): Number {
    if s == "Infinity" then Infinite(false)
    else
      match FindIndex(s, (c: char) => c == 'e' || c == 'E')
      case None =>
        (match MantissaValue(s)
         case None => NaN
         case Some(m) => Finite(m))
      case Some(k) =>
        match (MantissaValue(s[..k]), ExponentValue(s[k + 1..]))
        case (Some(m), Some(e)) => Finite(Scale(m, e))
        case _ => NaN
  }

  function Negate(n: Number): Number {
    match n
    case NaN => NaN
    case Finite(x) => Finite(-x)
    case Infinite(neg) => Infinite(!neg)
  }

  /** The radix a `0b`, `0o` or `0x` prefix (in either case) names. */
  function RadixOf(c: char): Option<nat> {
    if c == 'b' || c == 'B' then Some(2)
    else if c == 'o' || c == 'O' then Some(8)
    else if c == 'x' || c == 'X' then Some(16)
    else None
  }

  /** StringToNumber: the text is read with the whitespace around it trimmed. */
  function StringToNumber(s: string): Number {
    TrimmedToNumber(Trim(s))
  }

  /** A trimmed text: the empty string is 0, then a binary, octal or hexadecimal
      integer, then a signed decimal literal. */
  function TrimmedToNumber(t: string): Number {
    if t == "" then Finite(0.0)
    else if HasRadixPrefix(t) then RadixInteger(t)
    else SignedDecimal(t)
  }

  predicate HasRadixPrefix(t: string) {
    |t| >= 2 && t[0] == '0' && RadixOf(t[1]).Some?
  }

  /** An unsigned integer after a `0b`/`0o`/`0x` prefix; NaN unless every character
      after the prefix is a digit of that radix. */
  function RadixInteger(t: string): Number
    requires HasRadixPrefix(t)
  {
    match DigitsValue(t[2..], RadixOf(t[1]).value)
    case None => NaN
    case Some(v) => Finite(v as real)
  }

  /** An optional sign before an unsigned decimal literal. */
  function SignedDecimal(t: string): Number
    requires t != []
  {
    if t[0] == '+' then UnsignedDecimal(t[1..])
    else if t[0] == '-' then Negate(UnsignedDecimal(t[1..]))
    else UnsignedDecimal(t)
  }

  /** ToNumber of a property read (`undefined` is None). ToPrimitive turns an array
      or an object into its text, and throws where `ConversionThrows` says. */
  function ToNumber(v: Option<Json>, rt: Runtime): Result<Number, string> {
    if v.None? then Success(NaN)
    else
      match v.value
      case JNull => Success(Finite(0.0))
      case JBool(b) => Success(Finite(if b then 1.0 else 0.0))
      case JNum(n) => Success(Finite(n))
      case JStr(s) => Success(StringToNumber(s))
      case JArr(_) | JObj(_) =>
        if ConversionThrows(v.value) then Failure(ToPrimitiveMessage)
        else Success(StringToNumber(Text(v.value, rt)))
  }

  /* ---------- what the conversion gives on the values a status code takes ---------- */

  function DigitChar(d: nat): char
    requires d < 10
  {
    ('0' as int + d) as char
  }

  /** The decimal digits of n, without leading zeros. */
  function DecimalText(n: nat): (r: string)
    ensures r != [] && forall i | 0 <= i < |r| :: '0' <= r[i] <= '9'
  {
    if n < 10 then [DigitChar(n)] else DecimalText(n / 10) + [DigitChar(n % 10)]
  }

  lemma {:induction false} DecimalTextValue(n: nat)
    ensures DigitsValue(DecimalText(n), 10) == Some(n)
  {
    if n >= 10 {
      DecimalTextValue(n / 10);
      var s := DecimalText(n);
      assert s[..|s| - 1] == DecimalText(n / 10);
    }
  }

  /** Whitespace around a text that neither starts nor ends with whitespace is
      exactly what `trim` removes. */
  lemma {:induction false} TrimPadded(pre: string, t: string, post: string)
    requires forall i | 0 <= i < |pre| :: IsJsSpace(pre[i])
    requires forall i | 0 <= i < |post| :: IsJsSpace(post[i])
    requires t != [] && !IsJsSpace(t[0]) && !IsJsSpace(t[|t| - 1])
    ensures Trim(pre + t + post) == t
  {
    var rest := t + post;
    assert rest[0] == t[0];
    assert pre + t + post == pre + rest;
    TrimStartPadded(pre, rest);
    TrimEndPadded(t, post);
  }

  lemma {:induction false} TrimStartPadded(pre: string, rest: string)
    requires forall i | 0 <= i < |pre| :: IsJsSpace(pre[i])
    requires rest != [] && !IsJsSpace(rest[0])
    ensures TrimStart(pre + rest) == rest
  {
    if pre != [] {
      assert (pre + rest)[1..] == pre[1..] + rest;
      TrimStartPadded(pre[1..], rest);
    } else {
      assert pre + rest == rest;
    }
  }

  lemma {:induction false} TrimEndPadded(rest: string, post: string)
    requires forall i | 0 <= i < |post| :: IsJsSpace(post[i])
    requires rest != [] && !IsJsSpace(rest[|rest| - 1])
    ensures TrimEnd(rest + post) == rest
  {
    if post != [] {
      var n := |post| - 1;
      assert (rest + post)[..|rest + post| - 1] == rest + post[..n];
      TrimEndPadded(rest, post[..n]);
    } else {
      assert rest + post == rest;
    }
  }

  /** A text of decimal digits reads as an unsigned decimal literal with their value. */
  lemma DigitsAreDecimal(d: string, n: nat)
    requires forall i | 0 <= i < |d| :: '0' <= d[i] <= '9'
    requires DigitsValue(d, 10) == Some(n)
    ensures UnsignedDecimal(d) == Finite(n as real)
  {
    assert d != "Infinity" by {
      assert '0' <= d[0] <= '9';
    }
    assert FindIndex(d, (c: char) => c == 'e' || c == 'E') == None by {
      assert forall i | 0 <= i < |d| :: !(d[i] == 'e' || d[i] == 'E');
    }
    assert IndexOf(d, '.') == None by {
      assert forall i | 0 <= i < |d| :: d[i] != '.';
    }
  }

  /** A status written in decimal digits, with any whitespace around it, converts to
      its value: "204" and " 204 " are 204. */
  lemma DecimalStringValue(n: nat, pre: string, post: string)
    requires forall i | 0 <= i < |pre| :: IsJsSpace(pre[i])
    requires forall i | 0 <= i < |post| :: IsJsSpace(post[i])
    ensures StringToNumber(pre + DecimalText(n) + post) == Finite(n as real)
  {
    var d := DecimalText(n);
    assert !IsJsSpace(d[0]) && !IsJsSpace(d[|d| - 1]) by {
      assert '0' <= d[0] <= '9' && '0' <= d[|d| - 1] <= '9';
    }
    TrimPadded(pre, d, post);
    DecimalTextValue(n);
    DigitsAreDecimal(d, n);
    TrimmedUnsigned(d);
  }

  /** A trimmed text that starts with a decimal digit and has no radix prefix is an
      unsigned decimal literal. */
  lemma TrimmedUnsigned(d: string)
    requires d != [] && '0' <= d[0] <= '9'
    requires |d| >= 2 ==> '0' <= d[1] <= '9'
    ensures TrimmedToNumber(d) == UnsignedDecimal(d)
  {
  }

  /** A character other than whitespace survives `trim`. */
  lemma {:induction false} TrimKeeps(s: string, i: nat)
    requires i < |s| && !IsJsSpace(s[i])
    ensures s[i] in Trim(s)
  {
    var a := TrimStart(s);
    var k := i - (|s| - |a|);
    assert 0 <= k < |a| && a[k] == s[i] by {
      TrimStartKeeps(s, i);
    }
    TrimEndKeeps(a, k);
  }

  lemma {:induction false} TrimStartKeeps(s: string, i: nat)
    requires i < |s| && !IsJsSpace(s[i])
    ensures |s| - |TrimStart(s)| <= i
  {
    if s != [] && IsJsSpace(s[0]) {
      TrimStartKeeps(s[1..], i - 1);
    }
  }

  lemma {:induction false} TrimEndKeeps(s: string, i: nat)
    requires i < |s| && !IsJsSpace(s[i])
    ensures i < |TrimEnd(s)| && TrimEnd(s)[i] == s[i]
  {
    if s != [] && IsJsSpace(s[|s| - 1]) {
      TrimEndKeeps(s[..|s| - 1], i);
    }
  }

  lemma DigitsNoComma(s: string, radix: nat)
    requires ',' in s
    ensures DigitsValue(s, radix).None?
  {
    var i :| 0 <= i < |s| && s[i] == ',';
    assert !IsDigit(s[i], radix);
  }

  lemma ExponentNoComma(s: string)
    requires ',' in s
    ensures ExponentValue(s).None?
  {
    DigitsNoComma(s, 10);
    if s != [] && (s[0] == '+' || s[0] == '-') {
      var i :| 0 <= i < |s| && s[i] == ',';
      assert s[1..][i - 1] == ',';
      DigitsNoComma(s[1..], 10);
    }
  }

  lemma MantissaNoComma(s: string)
    requires ',' in s
    ensures MantissaValue(s).None?
  {
    DigitsNoComma(s, 10);
    var i :| 0 <= i < |s| && s[i] == ',';
    match IndexOf(s, '.')
    case None =>
    case Some(k) =>
      if i < k {
        assert s[..k][i] == ',';
        DigitsNoComma(s[..k], 10);
      } else {
        assert s[k + 1..][i - k - 1] == ',';
        DigitsNoComma(s[k + 1..], 10);
      }
  }

  lemma UnsignedNoComma(s: string)
    requires ',' in s
    ensures UnsignedDecimal(s) == NaN
  {
    assert s != "Infinity";
    var i :| 0 <= i < |s| && s[i] == ',';
    match FindIndex(s, (c: char) => c == 'e' || c == 'E')
    case None =>
      MantissaNoComma(s);
    case Some(k) =>
      if i < k {
        assert s[..k][i] == ',';
        MantissaNoComma(s[..k]);
      } else {
        assert s[k + 1..][i - k - 1] == ',';
        ExponentNoComma(s[k + 1..]);
      }
  }

  /** No numeric literal holds a comma: a text with one converts to NaN. */
  lemma CommaIsNaN(s: string)
    requires ',' in s
    ensures StringToNumber(s) == NaN
  {
    var i :| 0 <= i < |s| && s[i] == ',';
    TrimKeeps(s, i);
    TrimmedCommaIsNaN(Trim(s));
  }

  lemma TrimmedCommaIsNaN(t: string)
    requires ',' in t
    ensures TrimmedToNumber(t) == NaN
  {
    var j :| 0 <= j < |t| && t[j] == ',';
    if HasRadixPrefix(t) {
      assert t[2..][j - 2] == ',';
      DigitsNoComma(t[2..], RadixOf(t[1]).value);
    } else if t[0] == '+' || t[0] == '-' {
      assert t[1..][j - 1] == ',';
      UnsignedNoComma(t[1..]);
    } else {
      UnsignedNoComma(t);
    }
  }

  /** A mantissa cannot start with anything but a digit or '.'. */
  lemma MantissaNonNumeric(s: string)
    requires s == [] || (!IsDigit(s[0], 10) && s[0] != '.')
    ensures MantissaValue(s).None?
  {
  }

  /** A text that starts with neither a digit nor '.' and is not "Infinity" is no
      unsigned decimal literal. */
  lemma UnsignedNonNumeric(s: string)
    requires s != [] && !IsDigit(s[0], 10) && s[0] != '.' && s != "Infinity"
    ensures UnsignedDecimal(s) == NaN
  {
    match FindIndex(s, (c: char) => c == 'e' || c == 'E')
    case None =>
      MantissaNonNumeric(s);
    case Some(k) =>
      if k > 0 {
        assert s[..k][0] == s[0];
      }
      MantissaNonNumeric(s[..k]);
  }

  /** An object without a `toString` of its own converts through "[object Object]",
      which is NaN. */
  lemma ObjectToNumber(members: seq<(string, Json)>, rt: Runtime)
    ensures Lookup(members, "toString").None? ==> ToNumber(Some(JObj(members)), rt) == Success(NaN)
  {
    if Lookup(members, "toString").None? {
      assert !ConversionThrows(JObj(members)) && Text(JObj(members), rt) == ObjectText;
      CompoundToNumber(JObj(members), rt);
      ObjectTextIsNaN();
    }
  }

  lemma ObjectTextIsNaN()
    ensures StringToNumber(ObjectText) == NaN
  {
    ObjectTextTrimmed();
    ObjectTextUnsigned();
    UnsignedNonNumeric(ObjectText);
  }

  lemma ObjectTextTrimmed()
    ensures Trim(ObjectText) == ObjectText
  {
    var t := ObjectText;
    assert t[0] == '[' && t[|t| - 1] == ']';
    assert "" + t + "" == t;
    TrimPadded("", t, "");
  }

  lemma ObjectTextUnsigned()
    ensures TrimmedToNumber(ObjectText) == UnsignedDecimal(ObjectText)
    ensures ObjectText != [] && !IsDigit(ObjectText[0], 10) && ObjectText[0] != '.' && ObjectText != "Infinity"
  {
    assert ObjectText[0] == '[';
  }

  /** An array converts through its joined text. It throws exactly when one of its
      items does. Otherwise an empty one is 0, one item is the text of that item
      (empty for `null`), and two or more items hold a comma, so they are NaN. */
  lemma ArrayToNumber(items: seq<Json>, rt: Runtime)
    ensures (exists i | 0 <= i < |items| :: ConversionThrows(items[i])) ==>
      ToNumber(Some(JArr(items)), rt) == Failure(ToPrimitiveMessage)
    ensures ToNumber(Some(JArr(items)), rt).Failure? ==> exists i | 0 <= i < |items| :: ConversionThrows(items[i])
    ensures items == [] ==> ToNumber(Some(JArr(items)), rt) == Success(Finite(0.0))
    ensures |items| == 1 && !ConversionThrows(items[0]) ==>
      ToNumber(Some(JArr(items)), rt) == Success(StringToNumber(if items[0].JNull? then "" else Text(items[0], rt)))
    ensures |items| >= 2 && ToNumber(Some(JArr(items)), rt).Success? ==> ToNumber(Some(JArr(items)), rt) == Success(NaN)
  {
    ArrayThrows(items, rt);
    if !ConversionThrows(JArr(items)) {
      ArrayConverts(items, rt);
      ArrayText(items, rt);
    }
  }

  lemma ArrayThrows(items: seq<Json>, rt: Runtime)
    ensures ConversionThrows(JArr(items)) <==> exists i | 0 <= i < |items| :: ConversionThrows(items[i])
    ensures ToNumber(Some(JArr(items)), rt).Failure? <==> ConversionThrows(JArr(items))
    ensures ToNumber(Some(JArr(items)), rt).Failure? ==> ToNumber(Some(JArr(items)), rt).error == ToPrimitiveMessage
  {
    CompoundToNumber(JArr(items), rt);
  }

  lemma ArrayConverts(items: seq<Json>, rt: Runtime)
    requires !ConversionThrows(JArr(items))
    ensures ToNumber(Some(JArr(items)), rt) == Success(StringToNumber(Text(JArr(items), rt)))
  {
    CompoundToNumber(JArr(items), rt);
  }

  lemma CompoundToNumber(v: Json, rt: Runtime)
    requires v.JArr? || v.JObj?
    ensures ToNumber(Some(v), rt) ==
      if ConversionThrows(v) then Failure(ToPrimitiveMessage) else Success(StringToNumber(Text(v, rt)))
  {
  }

  /** The joined text of an array: that of its one item, or a text with a comma. */
  lemma ArrayText(items: seq<Json>, rt: Runtime)
    ensures items == [] ==> Text(JArr(items), rt) == ""
    ensures |items| == 1 ==> Text(JArr(items), rt) == if items[0].JNull? then "" else Text(items[0], rt)
    ensures |items| >= 2 ==> StringToNumber(Text(JArr(items), rt)) == NaN
  {
    var parts := seq(|items|, i requires 0 <= i < |items| =>
      if items[i].JNull? then "" else Text(items[i], rt));
    assert Text(JArr(items), rt) == Join(parts, ",");
    if |items| >= 2 {
      var s := Join(parts, ",");
      assert s == parts[0] + "," + Join(parts[1..], ",");
      assert s[|parts[0]|] == ',';
      CommaIsNaN(s);
    }
  }
}

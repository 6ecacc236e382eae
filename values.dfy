/** JavaScript values as the list screens meet them in API records, and the
    built-in conversions the screens apply to them: `String(v)`, truthiness,
    `trim`, `toLowerCase`, `includes`, `join`, `Number(v)` and `padStart(2, "0")`. */
module Values {

  datatype Option<+T> = None | Some(value: T)

  /** A field value of an API record. Objects, arrays and fractional numbers
      are not modelled; a key missing from a record stands for `undefined`. */
  datatype Value = Null | Bool(b: bool) | Num(n: int) | NaN | Str(s: string)

  /** An API record (a lead, a job or a technician), keyed by field name. */
  type Record = map<string, Value>

  // ---------------------------------------------------------------- characters

  predicate IsDigit(c: char) { '0' <= c <= '9' }

  /** The characters `String.prototype.trim` removes: ECMAScript WhiteSpace
      (tab, VT, FF, space, NBSP, ZWNBSP and the Zs category) and LineTerminator. */
  predicate IsSpace(c: char) {
    c == '\t' || c == '\n' || c == '\U{000B}' || c == '\U{000C}' || c == '\r' || c == ' '
    || c == '\U{00A0}' || c == '\U{1680}' || ('\U{2000}' <= c <= '\U{200A}')
    || c == '\U{2028}' || c == '\U{2029}' || c == '\U{202F}' || c == '\U{205F}'
    || c == '\U{3000}' || c == '\U{FEFF}'
  }

  predicate AllDigits(s: string) { forall i :: 0 <= i < |s| ==> IsDigit(s[i]) }

  predicate Blank(s: string) { forall i :: 0 <= i < |s| ==> IsSpace(s[i]) }

  // ---------------------------------------------------------------- trim

  function TrimStart(s: string): (r: string)
    ensures |r| <= |s| && r == s[|s| - |r|..]
    ensures r == [] || !IsSpace(r[0])
    ensures Blank(s[..|s| - |r|])
  {
    if |s| > 0 && IsSpace(s[0]) then
      var r := TrimStart(s[1..]);
      assert s[1..][..|s| - 1 - |r|] == s[1..|s| - |r|];
      r
    else
      assert s[..0] == [];
      s
  }

  function TrimEnd(s: string): (r: string)
    ensures |r| <= |s| && r == s[..|r|]
    ensures r == [] || !IsSpace(r[|r| - 1])
    ensures Blank(s[|r|..])
  {
    if |s| > 0 && IsSpace(s[|s| - 1]) then
      var p := s[..|s| - 1];
      var r := TrimEnd(p);
      assert forall j :: 0 <= j < |s| - 1 - |r| ==> s[|r|..][j] == p[|r|..][j];
      assert s[|r|..][|s| - 1 - |r|] == s[|s| - 1];
      r
    else
      assert s[|s|..] == [];
      s
  }

  /** `s.trim()` */
  function Trim(s: string): string { TrimEnd(TrimStart(s)) }

  /** `s.trim() === ""` exactly when every character of `s` is white space. */
  lemma TrimEmptyIffBlank(s: string)
    ensures Trim(s) == "" <==> Blank(s)
  {
    var t := TrimStart(s);
    if Trim(s) == "" {
      assert t[0..] == t;
      assert t == [];
      assert s[..|s|] == s;
    }
  }

  // ---------------------------------------------------------------- lower case

  /** `toLowerCase` on one character; only the ASCII letters are folded here. */
  function LowerChar(c: char): char {
    if 'A' <= c <= 'Z' then (c as int + 32) as char else c
  }

  function Lower(s: string): (r: string)
    ensures |r| == |s|
    ensures forall i :: 0 <= i < |s| ==> r[i] == LowerChar(s[i])
  {
    if s == [] then [] else [LowerChar(s[0])] + Lower(s[1..])
  }

  /** No ASCII capital letter occurs in `s`. */
  predicate NoUpper(s: string) {
    forall i :: 0 <= i < |s| ==> !('A' <= s[i] <= 'Z')
  }

  /** Lower-cased text holds no capital letter. */
  lemma LowerNoUpper(s: string)
    ensures NoUpper(Lower(s))
  {
  }

  lemma LowerAppend(a: string, b: string)
    ensures Lower(a + b) == Lower(a) + Lower(b)
  {
    var whole, parts := Lower(a + b), Lower(a) + Lower(b);
    forall i | 0 <= i < |whole| ensures whole[i] == parts[i] {
      if i < |a| {
        assert (a + b)[i] == a[i];
      } else {
        assert (a + b)[i] == b[i - |a|];
      }
    }
  }

  // ---------------------------------------------------------------- includes

  /** `s.includes(sub)`: `sub` occurs in `s` at some position. */
  function Contains(s: string, sub: string): bool
    decreases |s|
  {
    if |sub| > |s| then false
    else s[..|sub|] == sub || Contains(s[1..], sub)
  }

  predicate OccursAt(s: string, sub: string, i: int) {
    0 <= i && i + |sub| <= |s| && s[i..i + |sub|] == sub
  }

  /** The scanning definition of `Contains` agrees with "occurs at some index". */
  lemma {:induction false} ContainsIff(s: string, sub: string)
    ensures Contains(s, sub) <==> exists i :: OccursAt(s, sub, i)
    decreases |s|
  {
    if |sub| > |s| {
      assert forall i :: !OccursAt(s, sub, i);
    } else if s[..|sub|] == sub {
      assert OccursAt(s, sub, 0);
    } else {
      ContainsIff(s[1..], sub);
      if Contains(s[1..], sub) {
        var i :| OccursAt(s[1..], sub, i);
        assert s[1..][i..i + |sub|] == s[i + 1..i + 1 + |sub|];
        assert OccursAt(s, sub, i + 1);
      }
      if exists i :: OccursAt(s, sub, i) {
        var i :| OccursAt(s, sub, i);
        assert i != 0;
        assert s[1..][i - 1..i - 1 + |sub|] == s[i..i + |sub|];
        assert OccursAt(s[1..], sub, i - 1);
      }
    }
  }

  /** A string found in a part is found in any string that embeds the part. */
  lemma ContainsInfix(a: string, b: string, c: string, sub: string)
    requires Contains(b, sub)
    ensures Contains(a + b + c, sub)
  {
    ContainsIff(b, sub);
    var i :| OccursAt(b, sub, i);
    var s := a + b + c;
    assert s[|a| + i..|a| + i + |sub|] == b[i..i + |sub|];
    assert OccursAt(s, sub, |a| + i);
    ContainsIff(s, sub);
  }

  /** A string that lacks one of the characters of `sub` does not contain `sub`. */
  lemma NotContainsMissingChar(s: string, sub: string, k: int)
    requires 0 <= k < |sub| && forall i :: 0 <= i < |s| ==> s[i] != sub[k]
    ensures !Contains(s, sub)
  {
    forall i | 0 <= i && i + |sub| <= |s| ensures !OccursAt(s, sub, i) {
      assert s[i..i + |sub|][k] == s[i + k];
    }
    ContainsIff(s, sub);
  }

  /** Containment is transitive: a string holding `mid` holds every infix of `mid`. */
  lemma ContainsTrans(s: string, mid: string, sub: string)
    requires Contains(s, mid) && Contains(mid, sub)
    ensures Contains(s, sub)
  {
    ContainsIff(s, mid);
    var i :| OccursAt(s, mid, i);
    assert s == s[..i] + mid + s[i + |mid|..];
    ContainsInfix(s[..i], mid, s[i + |mid|..], sub);
  }

  // ---------------------------------------------------------------- join

  /** `parts.join(sep)` */
  function Join(parts: seq<string>, sep: string): string
  {
    if |parts| == 0 then ""
    else if |parts| == 1 then parts[0]
    else parts[0] + sep + Join(parts[1..], sep)
  }

  /** Every part is an infix of the joined string. */
  lemma {:induction false} JoinEmbeds(parts: seq<string>, sep: string, k: int)
    requires 0 <= k < |parts|
    ensures exists a, c :: Join(parts, sep) == a + parts[k] + c
  {
    if |parts| == 1 {
      assert Join(parts, sep) == "" + parts[k] + "";
    } else if k == 0 {
      assert Join(parts, sep) == "" + parts[0] + (sep + Join(parts[1..], sep));
    } else {
      JoinEmbeds(parts[1..], sep, k - 1);
      var a, c :| Join(parts[1..], sep) == a + parts[1..][k - 1] + c;
      assert Join(parts, sep) == (parts[0] + sep + a) + parts[k] + c;
    }
  }

  // ---------------------------------------------------------------- numbers as text

  function DigitChar(d: int): char
    requires 0 <= d < 10
  {
    ('0' as int + d) as char
  }

  /** The decimal digits of a natural number, without leading zeros. */
  function Digits(n: nat): (r: string)
    ensures |r| >= 1 && AllDigits(r)
    ensures n < 10 <==> |r| == 1
  {
    if n < 10 then [DigitChar(n)] else Digits(n / 10) + [DigitChar(n % 10)]
  }

  /** `String(n)` for an integer number. */
  function IntText(n: int): string {
    if n < 0 then "-" + Digits(-n) else Digits(n)
  }

  /** The value of a string of decimal digits. */
  function DigitsValue(s: string): nat
    requires AllDigits(s)
  {
    if s == [] then 0 else DigitsValue(s[..|s| - 1]) * 10 + (s[|s| - 1] as int - '0' as int)
  }

  lemma {:induction false} DigitsValueOfDigits(n: nat)
    ensures DigitsValue(Digits(n)) == n
  {
    if n >= 10 {
      DigitsValueOfDigits(n / 10);
      var s := Digits(n);
      assert s[..|s| - 1] == Digits(n / 10);
    }
  }

  lemma DigitsValueLeadingZero(s: string)
    requires AllDigits(s)
    ensures AllDigits("0" + s) && DigitsValue("0" + s) == DigitsValue(s)
    decreases |s|
  {
    if s != [] {
      assert ("0" + s)[..|s|] == "0" + s[..|s| - 1];
      DigitsValueLeadingZero(s[..|s| - 1]);
    }
  }

  /** `s.padStart(2, "0")` */
  function Pad2(s: string): (r: string)
    ensures |s| >= 2 ==> r == s
    ensures |s| < 2 ==> |r| == 2
  {
    if |s| >= 2 then s else if |s| == 1 then "0" + s else "00"
  }

  /** A number below 100, padded, reads back as itself and is two digits long. */
  lemma Pad2Digits(n: nat)
    requires n < 100
    ensures |Pad2(Digits(n))| == 2 && AllDigits(Pad2(Digits(n)))
    ensures DigitsValue(Pad2(Digits(n))) == n
  {
    DigitsValueOfDigits(n);
    if n < 10 {
      DigitsValueLeadingZero(Digits(n));
    } else {
      assert |Digits(n / 10)| == 1;
    }
  }

  // ---------------------------------------------------------------- String(v), truthiness, Number(v)

  /** `String(v)` and template-literal interpolation `${v}`. */
  function Text(v: Value): string {
    match v
    case Null => "null"
    case Bool(b) => if b then "true" else "false"
    case Num(n) => IntText(n)
    case NaN => "NaN"
    case Str(s) => s
  }

  /** `!v`: the falsy values are null, false, 0, NaN and "". */
  predicate Falsy(v: Value) {
    v == Null || v == Bool(false) || v == Num(0) || v == NaN || v == Str("")
  }

  /** Only a string can print as blank. */
  lemma {:induction false} TextBlankOnlyForStrings(v: Value)
    requires !v.Str?
    ensures !Blank(Text(v))
  {
    match v
    case Num(n) =>
      var t := Text(v);
      if n < 0 {
        assert t[1] == Digits(-n)[0];
        assert !IsSpace(t[1]);
      } else {
        assert !IsSpace(t[0]);
      }
    case Null => assert !IsSpace(Text(v)[0]);
    case Bool(b) => assert !IsSpace(Text(v)[0]);
    case NaN => assert !IsSpace(Text(v)[0]);
  }

  /** `Number(s)` for a string, on the integer forms: surrounding white space
      is ignored, a blank string is 0, an optional sign precedes the digits.
      Any other string is NaN here (`None`). */
  function StringToNumber(s: string): (r: Option<int>)
    ensures Blank(s) ==> r == Some(0)
  {
    TrimEmptyIffBlank(s);
    NumberOfTrimmed(Trim(s))
  }

  /** `Number` on text without surrounding white space. */
  function NumberOfTrimmed(t: string): Option<int> {
    if t == "" then Some(0)
    else if AllDigits(t) then Some(DigitsValue(t))
    else if |t| > 1 && t[0] == '+' && AllDigits(t[1..]) then Some(DigitsValue(t[1..]))
    else if |t| > 1 && t[0] == '-' && AllDigits(t[1..]) then Some(0 - DigitsValue(t[1..]))
    else None
  }

  /** Trimming leaves a string alone when it neither starts nor ends with white space. */
  lemma TrimUnspaced(s: string)
    requires |s| >= 1 && !IsSpace(s[0]) && !IsSpace(s[|s| - 1])
    ensures Trim(s) == s
  {
    assert TrimStart(s) == s;
  }

  /** `Number` of text that neither starts nor ends with white space reads
      the text as it is. */
  lemma StringToNumberUnspaced(t: string)
    requires |t| >= 1 && !IsSpace(t[0]) && !IsSpace(t[|t| - 1])
    ensures StringToNumber(t) == NumberOfTrimmed(t)
  {
    TrimUnspaced(t);
  }

  /** A string of digits reads back as its value. */
  lemma StringToNumberOfDigits(s: string)
    requires |s| >= 1 && AllDigits(s)
    ensures StringToNumber(s) == Some(DigitsValue(s))
  {
    StringToNumberUnspaced(s);
  }

  lemma NumberOfTrimmedNegated(d: string)
    requires |d| >= 1 && AllDigits(d)
    ensures NumberOfTrimmed("-" + d) == Some(0 - DigitsValue(d))
  {
    var t := "-" + d;
    assert t[1..] == d;
    assert !IsDigit(t[0]);
  }

  /** A minus sign and digits read back as the negated value. */
  lemma StringToNumberOfNegated(d: string)
    requires |d| >= 1 && AllDigits(d)
    ensures StringToNumber("-" + d) == Some(0 - DigitsValue(d))
  {
    var t := "-" + d;
    NumberOfTrimmedNegated(d);
    assert t[|t| - 1] == d[|d| - 1];
    StringToNumberUnspaced(t);
  }

  /** A minus sign and the digits of `m` read back as `-m`. */
  lemma StringToNumberOfMinusDigits(m: nat)
    ensures StringToNumber("-" + Digits(m)) == Some(-(m as int))
  {
    DigitsValueOfDigits(m);
    NegatedValue(Digits(m), m);
  }

  lemma NegatedValue(d: string, m: nat)
    requires |d| >= 1 && AllDigits(d) && DigitsValue(d) == m
    ensures StringToNumber("-" + d) == Some(-(m as int))
  {
    StringToNumberOfNegated(d);
  }

  lemma StringToNumberOfNegativeText(n: int)
    requires n < 0
    ensures StringToNumber(IntText(n)) == Some(n)
  {
    var m: nat := -n;
    var t := IntText(n);
    assert t == "-" + Digits(m);
    StringToNumberOfMinusDigits(m);
    assert StringToNumber(t) == Some(n);
  }

  lemma StringToNumberOfNaturalText(n: int)
    requires n >= 0
    ensures StringToNumber(IntText(n)) == Some(n)
  {
    var m: nat := n;
    var d := Digits(m);
    assert IntText(n) == d;
    DigitsValueOfDigits(m);
    StringToNumberOfDigits(d);
  }

  /** `String(n)` reads back as `n` under `Number`. */
  lemma StringToNumberOfIntText(n: int)
    ensures StringToNumber(IntText(n)) == Some(n)
  {
    if n < 0 {
      StringToNumberOfNegativeText(n);
    } else {
      StringToNumberOfNaturalText(n);
    }
  }

  /** `Number(v)`; `None` stands for `undefined` on input and for NaN on output. */
  function ToNumber(v: Option<Value>): Option<int> {
    match v
    case None => None
    case Some(Null) => Some(0)
    case Some(Bool(b)) => Some(if b then 1 else 0)
    case Some(Num(n)) => Some(n)
    case Some(NaN) => None
    case Some(Str(s)) => StringToNumber(s)
  }

  /** The JavaScript number a conversion produced, as a record value. */
  function NumberValue(o: Option<int>): Value {
    if o.Some? then Num(o.value) else NaN
  }
}

/** `extractLatLng`: the coordinates in a map link such as
    `https://www.google.com/maps/@12.97,77.59,15z`, found with the regular
    expression `@(-?\d+\.\d+),(-?\d+\.\d+)`. The two captures are kept as
    the text they match; turning them into numbers is not modelled. */
module MapLink {
  import opened Values

  /** `{ latitude, longitude }`, each as the text of its capture. */
  datatype LatLng = LatLng(latitude: string, longitude: string)

  /** What `text.match(regex)` returns: the index of the match and its two
      captures. */
  datatype RegexMatch = RegexMatch(index: nat, latitude: string, longitude: string)

  // ---------------------------------------------------------------- the pattern

  /** `\d+\.\d+`, read from the left: a digit, then either the point and
      one or more digits, or again `\d+\.\d+`. */
  predicate Unsigned(t: string)
    decreases |t|
  {
    |t| >= 3 && IsDigit(t[0]) && ((t[1] == '.' && AllDigits(t[2..])) || Unsigned(t[1..]))
  }

  /** `-?\d+\.\d+`: an unsigned decimal with an optional leading minus sign. */
  predicate IsDecimal(t: string) {
    Unsigned(t) || (|t| > 0 && t[0] == '-' && Unsigned(t[1..]))
  }

  // ---------------------------------------------------------------- the matcher

  /** The length of the run of digits starting at `i`; `\d+` takes all of it. */
  function DigitRun(s: string, i: nat): (n: nat)
    requires i <= |s|
    ensures i + n <= |s|
    decreases |s| - i
  {
    if i == |s| || !IsDigit(s[i]) then 0 else 1 + DigitRun(s, i + 1)
  }

  /** The run is all digits and is not followed by a digit. */
  lemma {:induction false} DigitRunDigits(s: string, i: nat)
    requires i <= |s|
    ensures forall k :: i <= k < i + DigitRun(s, i) ==> IsDigit(s[k])
    ensures i + DigitRun(s, i) == |s| || !IsDigit(s[i + DigitRun(s, i)])
    decreases |s| - i
  {
    if i < |s| && IsDigit(s[i]) {
      DigitRunDigits(s, i + 1);
    }
  }

  /** `s[j..e]` is a run of digits, a point at `j + a`, and a run of digits. */
  lemma {:induction false} UnsignedAt(s: string, j: nat, a: nat, e: nat)
    requires 0 < a && j + a + 1 < e <= |s| && s[j + a] == '.'
    requires forall k :: j <= k < j + a ==> IsDigit(s[k])
    requires forall k :: j + a + 1 <= k < e ==> IsDigit(s[k])
    ensures Unsigned(s[j..e])
    decreases a
  {
    var t := s[j..e];
    assert t[0] == s[j];
    if a == 1 {
      assert t[1] == '.';
      forall k | 0 <= k < |t| - 2 ensures IsDigit(t[2..][k]) {
        assert t[2..][k] == s[j + 2 + k];
      }
    } else {
      UnsignedAt(s, j + 1, a - 1, e);
      assert t[1..] == s[j + 1..e];
    }
  }

  /** Where `-?\d+\.\d+` starting at `i` ends, or `None` when it does not
      match there. The greedy runs never give anything back: a shorter
      integer part would leave a digit where the point must be, and a
      shorter fraction would leave a digit where the comma must be. */
  function NumberEnd(s: string, i: nat): (r: Option<nat>)
    requires i <= |s|
    ensures r.Some? ==> i < r.value <= |s|
  {
    var j := if i < |s| && s[i] == '-' then i + 1 else i;
    var a := DigitRun(s, j);
    if a == 0 || j + a == |s| || s[j + a] != '.' then None
    else
      var b := DigitRun(s, j + a + 1);
      if b == 0 then None else Some(j + a + 1 + b)
  }

  /** What `-?\d+\.\d+` takes is a decimal. */
  lemma NumberEndDecimal(s: string, i: nat)
    requires i <= |s| && NumberEnd(s, i).Some?
    ensures IsDecimal(s[i..NumberEnd(s, i).value])
  {
    var j := if i < |s| && s[i] == '-' then i + 1 else i;
    var a := DigitRun(s, j);
    var e := NumberEnd(s, i).value;
    DigitRunDigits(s, j);
    DigitRunDigits(s, j + a + 1);
    UnsignedAt(s, j, a, e);
    if j == i + 1 {
      assert s[i..e][0] == '-' && s[i..e][1..] == s[j..e];
    }
  }

  /** The text a match covers: `@`, the latitude, a comma, the longitude. */
  function MatchText(m: RegexMatch): string {
    "@" + m.latitude + "," + m.longitude
  }

  /** The text between an `@` at `i`, a comma at `e1` and the end `e2` is
      the match text of the two pieces. */
  lemma Layout(s: string, i: nat, e1: nat, e2: nat)
    requires i < e1 < e2 <= |s| && s[i] == '@' && s[e1] == ','
    ensures s[i..e2] == MatchText(RegexMatch(i, s[i + 1..e1], s[e1 + 1..e2]))
  {
    assert s[i..e2] == [s[i]] + s[i + 1..e1] + [s[e1]] + s[e1 + 1..e2];
  }

  /** The match of the whole pattern with its `@` at `i`, if any. */
  function MatchAt(s: string, i: nat): (r: Option<RegexMatch>)
    requires i <= |s|
    ensures r.Some? ==> r.value.index == i
  {
    if i == |s| || s[i] != '@' then None
    else
      match NumberEnd(s, i + 1)
      case None => None
      case Some(e1) =>
        if e1 == |s| || s[e1] != ',' then None
        else
          match NumberEnd(s, e1 + 1)
          case None => None
          case Some(e2) => Some(RegexMatch(i, s[i + 1..e1], s[e1 + 1..e2]))
  }

  /** `text.match(regex)` from position `i` on: the leftmost match. */
  function MatchFrom(s: string, i: nat): (r: Option<RegexMatch>)
    requires i <= |s|
    ensures r.Some? ==> i <= r.value.index <= |s| && MatchAt(s, r.value.index) == r
    ensures r.None? ==> forall j :: i <= j <= |s| ==> MatchAt(s, j).None?
    decreases |s| - i
  {
    if MatchAt(s, i).Some? then MatchAt(s, i)
    else if i == |s| then None
    else MatchFrom(s, i + 1)
  }

  /** The match found from `i` on is the leftmost one: a match at any
      `j >= i` means one is found, at `j` or before it. */
  lemma {:induction false} MatchFromLeftmost(s: string, i: nat, j: nat)
    requires i <= j <= |s| && MatchAt(s, j).Some?
    ensures MatchFrom(s, i).Some? && MatchFrom(s, i).value.index <= j
    decreases j - i
  {
    if MatchAt(s, i).None? {
      MatchFromLeftmost(s, i + 1, j);
    }
  }

  /** No index before the one the search from `i` stops at holds a match. */
  lemma {:induction false} MatchFromFirst(s: string, i: nat)
    requires i <= |s| && MatchFrom(s, i).Some?
    ensures forall j :: i <= j < MatchFrom(s, i).value.index ==> MatchAt(s, j).None?
    decreases |s| - i
  {
    if MatchAt(s, i).None? {
      assert i < |s| && MatchFrom(s, i) == MatchFrom(s, i + 1);
      MatchFromFirst(s, i + 1);
    }
  }

  /** A match covers `@`, its latitude, a comma and its longitude. */
  lemma MatchAtOccurs(s: string, i: nat)
    requires i <= |s| && MatchAt(s, i).Some?
    ensures OccursAt(s, MatchText(MatchAt(s, i).value), i)
  {
    var e1 := NumberEnd(s, i + 1).value;
    Layout(s, i, e1, NumberEnd(s, e1 + 1).value);
  }

  /** Where the two numbers of a match end. */
  lemma MatchAtParts(s: string, i: nat) returns (e1: nat, e2: nat)
    requires i <= |s| && MatchAt(s, i).Some?
    ensures i < |s| && NumberEnd(s, i + 1) == Some(e1) && e1 < |s| && NumberEnd(s, e1 + 1) == Some(e2)
    ensures MatchAt(s, i).value == RegexMatch(i, s[i + 1..e1], s[e1 + 1..e2])
  {
    e1 := NumberEnd(s, i + 1).value;
    e2 := NumberEnd(s, e1 + 1).value;
  }

  /** Both captures of a match are decimals. */
  lemma MatchAtDecimals(s: string, i: nat)
    requires i <= |s| && MatchAt(s, i).Some?
    ensures IsDecimal(MatchAt(s, i).value.latitude) && IsDecimal(MatchAt(s, i).value.longitude)
  {
    var e1, e2 := MatchAtParts(s, i);
    NumberEndDecimal(s, i + 1);
    NumberEndDecimal(s, e1 + 1);
  }

  /** `extractLatLng(text)`: the two captures of the leftmost match, or
      `None` (null) when the text has no match; each capture is a decimal,
      the text holds `@`, the latitude, a comma and the longitude, and the
      captures are the whole match at the first index where one starts. */
  function ExtractLatLng(text: string): (r: Option<LatLng>)
    ensures r.Some? ==> IsDecimal(r.value.latitude) && IsDecimal(r.value.longitude)
    ensures r.Some? ==> exists i :: OccursAt(text, "@" + r.value.latitude + "," + r.value.longitude, i)
    ensures r.Some? ==> exists i ::
              && 0 <= i <= |text|
              && MatchAt(text, i) == Some(RegexMatch(i, r.value.latitude, r.value.longitude))
              && forall j :: 0 <= j < i ==> MatchAt(text, j).None?
    ensures r.None? ==> forall i :: 0 <= i <= |text| ==> MatchAt(text, i).None?
  {
    match MatchFrom(text, 0)
    case Some(m) =>
      MatchAtDecimals(text, m.index);
      MatchAtOccurs(text, m.index);
      MatchFromFirst(text, 0);
      assert MatchAt(text, m.index) == Some(RegexMatch(m.index, m.latitude, m.longitude));
      Some(LatLng(m.latitude, m.longitude))
    case None => None
  }

  // ---------------------------------------------------------------- properties

  /** A run of exactly `n` digits is what `\d+` takes. */
  lemma {:induction false} DigitRunExact(s: string, j: nat, n: nat)
    requires j + n <= |s|
    requires forall k :: j <= k < j + n ==> IsDigit(s[k])
    requires j + n == |s| || !IsDigit(s[j + n])
    ensures DigitRun(s, j) == n
    decreases n
  {
    if n > 0 {
      DigitRunExact(s, j + 1, n - 1);
    }
  }

  /** A piece of an occurrence occurs at the matching offset. */
  lemma OccursInside(s: string, w: string, i: nat, x: nat, y: nat)
    requires OccursAt(s, w, i) && x <= y <= |w|
    ensures OccursAt(s, w[x..y], i + x)
  {
    forall t | 0 <= t < y - x ensures s[i + x..i + y][t] == w[x..y][t] {
      assert s[i + x + t] == s[i..i + |w|][x + t];
    }
  }

  /** An unsigned decimal written at `j` and not followed by a digit: `\d+`
      takes its integer part up to the point at `j + k`, and then its
      whole fraction. */
  lemma {:induction false} UnsignedRuns(s: string, j: nat, u: string) returns (k: nat)
    requires Unsigned(u) && OccursAt(s, u, j)
    requires j + |u| == |s| || !IsDigit(s[j + |u|])
    ensures 0 < k && j + k + 1 < j + |u| && s[j + k] == '.'
    ensures DigitRun(s, j) == k && DigitRun(s, j + k + 1) == |u| - k - 1
    decreases |u|
  {
    OccursInside(s, u, j, 0, 2);
    assert s[j] == s[j..j + 2][0] && s[j + 1] == s[j..j + 2][1];
    if u[1] == '.' && AllDigits(u[2..]) {
      k := 1;
      FractionRun(s, j, u);
    } else {
      assert Unsigned(u[1..]);
      OccursInside(s, u, j, 1, |u|);
      assert u[1..|u|] == u[1..];
      var k' := UnsignedRuns(s, j + 1, u[1..]);
      k := k' + 1;
      assert IsDigit(s[j]) && DigitRun(s, j) == 1 + DigitRun(s, j + 1);
    }
  }

  /** `d.ddd`: the run at `j` is the one digit, the fraction runs to the end. */
  lemma FractionRun(s: string, j: nat, u: string)
    requires |u| >= 3 && IsDigit(u[0]) && u[1] == '.' && AllDigits(u[2..]) && OccursAt(s, u, j)
    requires j + |u| == |s| || !IsDigit(s[j + |u|])
    ensures DigitRun(s, j) == 1 && DigitRun(s, j + 2) == |u| - 2
  {
    forall x | j <= x < j + |u| ensures s[x] == u[x - j] {
      assert s[x] == s[j..j + |u|][x - j];
    }
    DigitRunExact(s, j, 1);
    forall x | j + 2 <= x < j + |u| ensures IsDigit(s[x]) {
      assert u[x - j] == u[2..][x - j - 2];
    }
    DigitRunExact(s, j + 2, |u| - 2);
  }

  /** A decimal with a minus sign is not unsigned: an unsigned decimal
      starts with a digit. */
  lemma SignedNotUnsigned(t: string)
    requires |t| > 0 && t[0] == '-'
    ensures !Unsigned(t)
  {
  }

  /** `NumberEnd` in terms of the two digit runs it measures. */
  lemma NumberEndOfRuns(s: string, i: nat, j: nat, k: nat, e: nat)
    requires i <= j <= |s| && j == (if i < |s| && s[i] == '-' then i + 1 else i)
    requires 0 < k && j + k + 1 < e <= |s| && s[j + k] == '.'
    requires DigitRun(s, j) == k && DigitRun(s, j + k + 1) == e - j - k - 1
    ensures NumberEnd(s, i) == Some(e)
  {
  }

  /** A decimal written at `i` and not followed by a digit is matched whole. */
  lemma NumberOfDecimal(s: string, i: nat, t: string)
    requires IsDecimal(t) && OccursAt(s, t, i)
    requires i + |t| == |s| || !IsDigit(s[i + |t|])
    ensures NumberEnd(s, i) == Some(i + |t|)
  {
    assert s[i] == s[i..i + |t|][0] == t[0];
    if t[0] == '-' {
      SignedNotUnsigned(t);
      OccursInside(s, t, i, 1, |t|);
      var k := UnsignedRuns(s, i + 1, t[1..]);
      NumberEndOfRuns(s, i, i + 1, k, i + |t|);
    } else {
      var k := UnsignedRuns(s, i, t);
      NumberEndOfRuns(s, i, i, k, i + |t|);
    }
  }

  /** `MatchAt` in terms of where the two numbers end. */
  lemma MatchAtOfEnds(s: string, i: nat, e1: nat, e2: nat)
    requires i < e1 < |s| && s[i] == '@' && s[e1] == ','
    requires NumberEnd(s, i + 1) == Some(e1) && NumberEnd(s, e1 + 1) == Some(e2)
    ensures MatchAt(s, i) == Some(RegexMatch(i, s[i + 1..e1], s[e1 + 1..e2]))
  {
  }

  /** `@` at `i`, then a decimal `a`, a comma and a decimal `b` not followed
      by a digit: the pattern matches at `i`, capturing `a` and `b`. */
  lemma MatchOfDecimals(s: string, i: nat, a: string, b: string)
    requires IsDecimal(a) && IsDecimal(b)
    requires i < |s| && s[i] == '@' && OccursAt(s, a, i + 1)
    requires i + 1 + |a| < |s| && s[i + 1 + |a|] == ',' && OccursAt(s, b, i + 2 + |a|)
    requires var e := i + |a| + |b| + 2; e == |s| || !IsDigit(s[e])
    ensures MatchAt(s, i) == Some(RegexMatch(i, a, b))
  {
    var e1 := i + 1 + |a|;
    NumberOfDecimal(s, i + 1, a);
    NumberOfDecimal(s, e1 + 1, b);
    MatchAtOfEnds(s, i, e1, e1 + 1 + |b|);
  }

  /** Text before the first `@` is skipped, and a link carrying `@lat,lng`
      gives back exactly those two decimals, whatever follows them as long
      as it does not start with a digit (such as the zoom `,15z`). */
  lemma ExtractRoundTrip(p: string, a: string, b: string, q: string)
    requires forall k :: 0 <= k < |p| ==> p[k] != '@'
    requires IsDecimal(a) && IsDecimal(b)
    requires q == "" || !IsDigit(q[0])
    ensures ExtractLatLng(p + "@" + a + "," + b + q) == Some(LatLng(a, b))
  {
    var s := p + "@" + a + "," + b + q;
    var i := |p|;
    LinkLayout(p, a, b, q);
    MatchOfDecimals(s, i, a, b);
    MatchFromLeftmost(s, 0, i);
    assert MatchFrom(s, 0).value.index == i;
  }

  /** Where the pieces of `p + "@" + a + "," + b + q` sit. */
  lemma LinkLayout(p: string, a: string, b: string, q: string)
    ensures var s, i := p + "@" + a + "," + b + q, |p|;
            && |s| == i + |a| + |b| + 2 + |q|
            && (forall k :: 0 <= k < i ==> s[k] == p[k])
            && s[i] == '@' && OccursAt(s, a, i + 1)
            && s[i + 1 + |a|] == ',' && OccursAt(s, b, i + 2 + |a|)
            && (q != "" ==> s[i + 2 + |a| + |b|] == q[0])
  {
    var s, i := p + "@" + a + "," + b + q, |p|;
    assert s[i + 1..i + 1 + |a|] == a;
    assert s[i + 2 + |a|..i + 2 + |a| + |b|] == b;
  }

  /** An unsigned decimal has a point. */
  lemma {:induction false} UnsignedHasPoint(t: string) returns (k: nat)
    requires Unsigned(t)
    ensures k < |t| && t[k] == '.'
    decreases |t|
  {
    if t[1] == '.' {
      k := 1;
    } else {
      var k' := UnsignedHasPoint(t[1..]);
      k := k' + 1;
    }
  }

  /** A decimal has a point. */
  lemma DecimalHasPoint(t: string) returns (k: nat)
    requires IsDecimal(t)
    ensures k < |t| && t[k] == '.'
  {
    if Unsigned(t) {
      k := UnsignedHasPoint(t);
    } else {
      var j := UnsignedHasPoint(t[1..]);
      k := j + 1;
    }
  }

  /** Coordinates are only found in text with a decimal point. */
  lemma CoordinatesHavePoint(text: string)
    ensures ExtractLatLng(text).None? || exists x :: 0 <= x < |text| && text[x] == '.'
  {
    var r := ExtractLatLng(text);
    if r.Some? {
      var lat := r.value.latitude;
      var w := "@" + lat + "," + r.value.longitude;
      var i :| OccursAt(text, w, i);
      var k := DecimalHasPoint(lat);
      assert w[1 + k] == '.';
      OccursInside(text, w, i, 1 + k, 2 + k);
      assert text[i + 1 + k] == text[i + 1 + k..i + 2 + k][0];
    }
  }

  /** Text without a decimal point has no coordinates: integer forms such as
      `@12,77` give null. */
  lemma NoPointNoCoordinates(text: string)
    requires forall k :: 0 <= k < |text| ==> text[k] != '.'
    ensures ExtractLatLng(text) == None
  {
    CoordinatesHavePoint(text);
  }

  /** `extractLatLng("@12,77")` is null. */
  lemma IntegerFormRejected()
    ensures ExtractLatLng("@12,77") == None
  {
    NoPointNoCoordinates("@12,77");
  }

  /** A map link with a zoom suffix gives the two coordinates. */
  lemma MapLinkExample()
    ensures ExtractLatLng("maps/@12.97,-77.59,15z") == Some(LatLng("12.97", "-77.59"))
  {
    var p, a, b, q := "maps/", "12.97", "-77.59", ",15z";
    assert p + "@" + a + "," + b + q == "maps/@12.97,-77.59,15z";
    ExampleDecimals();
    ExtractRoundTrip(p, a, b, q);
  }

  /** The two coordinates of the example link are decimals. */
  lemma ExampleDecimals()
    ensures IsDecimal("12.97") && IsDecimal("-77.59")
  {
    assert "12.97"[1..] == "2.97" && "2.97"[2..] == "97";
    assert "-77.59"[1..] == "77.59" && "77.59"[1..] == "7.59" && "7.59"[2..] == "59";
  }
}

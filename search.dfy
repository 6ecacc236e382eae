/** The search box of the lead and job lists: the typed term is trimmed and
    lower-cased, and a record matches when the term occurs in the lower-cased,
    space-joined text of a fixed list of its fields. */
module Search {
  import opened Values
  import opened Fields

  /** `searchTerm.trim().toLowerCase()` */
  function NormalizeSearch(term: string): (r: string)
    ensures |r| <= |term| && NoUpper(r)
  {
    LowerNoUpper(Trim(term));
    Lower(Trim(term))
  }

  /** The candidate keys of the fields a lead is searched by, in join order. */
  const LeadSearchFields: seq<seq<string>> := [
    ["LeadId", "leadId"], ["CustomerName", "customerName"], ["MobileNo", "mobileNo"],
    ["StatusName", "LeadStatus", "statusName"], ["AddressType", "addressType"],
    ["Area", "area"], ["Pincode", "pincode"], ["JobNumber", "jobNumber"]
  ]

  /** The candidate keys of the fields a job is searched by, in join order. */
  const JobSearchFields: seq<seq<string>> := [
    ["JobNumber", "jobNumber"], ["CustomerName", "customerName"], ["MobileNo", "mobileNo"],
    ["ServiceName", "serviceName"], ["JobStatus", "jobStatus"], ["Address", "address"]
  ]

  /** Each field read with `getField(rec, keys, "")` and turned into text. */
  function FieldTexts(rec: Record, fields: seq<seq<string>>): (r: seq<string>)
    ensures |r| == |fields|
    ensures forall i :: 0 <= i < |fields| ==> r[i] == Text(GetField(rec, fields[i], Str("")))
  {
    seq(|fields|, i requires 0 <= i < |fields| => Text(GetField(rec, fields[i], Str(""))))
  }

  /** `[...].join(" ").toLowerCase()` */
  function Haystack(rec: Record, fields: seq<seq<string>>): (r: string)
    ensures NoUpper(r)
  {
    LowerNoUpper(Join(FieldTexts(rec, fields), " "));
    Lower(Join(FieldTexts(rec, fields), " "))
  }

  /** `matchesSearch(rec, term)`: an empty term matches every record, and
      any other term exactly the records in whose haystack it occurs. */
  function MatchesSearch(rec: Record, fields: seq<seq<string>>, term: string): (r: bool)
    ensures term == "" ==> r
    ensures r <==> term == "" || exists j :: OccursAt(Haystack(rec, fields), term, j)
    ensures r && term != "" ==> |term| <= |Haystack(rec, fields)|
  {
    ContainsIff(Haystack(rec, fields), term);
    term == "" || Contains(Haystack(rec, fields), term)
  }

  // ---------------------------------------------------------------- properties

  /** A term that occurs in the lower-cased text of any one searched field
      makes the record match. */
  lemma FieldHitMatches(rec: Record, fields: seq<seq<string>>, term: string, k: int)
    requires 0 <= k < |fields|
    requires Contains(Lower(Text(GetField(rec, fields[k], Str("")))), term)
    ensures MatchesSearch(rec, fields, term)
  {
    var parts := FieldTexts(rec, fields);
    JoinEmbeds(parts, " ", k);
    var a, c :| Join(parts, " ") == a + parts[k] + c;
    LowerAppend(a + parts[k], c);
    LowerAppend(a, parts[k]);
    ContainsInfix(Lower(a), Lower(parts[k]), Lower(c), term);
  }

  lemma LowerCharKeepsSpace(c: char)
    ensures IsSpace(LowerChar(c)) <==> IsSpace(c)
  {
  }

  /** Lower-casing and trimming commute. */
  lemma {:induction false} TrimStartLower(s: string)
    ensures TrimStart(Lower(s)) == Lower(TrimStart(s))
    decreases |s|
  {
    if |s| > 0 {
      LowerCharKeepsSpace(s[0]);
      assert Lower(s)[1..] == Lower(s[1..]);
      TrimStartLower(s[1..]);
    }
  }

  lemma {:induction false} TrimEndLower(s: string)
    ensures TrimEnd(Lower(s)) == Lower(TrimEnd(s))
    decreases |s|
  {
    if |s| > 0 {
      LowerCharKeepsSpace(s[|s| - 1]);
      assert Lower(s)[..|s| - 1] == Lower(s[..|s| - 1]);
      TrimEndLower(s[..|s| - 1]);
    }
  }

  lemma LowerIdempotent(s: string)
    ensures Lower(Lower(s)) == Lower(s)
  {
  }

  /** The search is case-insensitive: terms equal up to letter case give the
      same normalised term. */
  lemma NormalizeIgnoresCase(t1: string, t2: string)
    requires Lower(t1) == Lower(t2)
    ensures NormalizeSearch(t1) == NormalizeSearch(t2)
  {
    TrimStartLower(t1); TrimEndLower(TrimStart(t1));
    TrimStartLower(t2); TrimEndLower(TrimStart(t2));
  }

  /** Normalising twice is normalising once. */
  lemma NormalizeIdempotent(t: string)
    ensures NormalizeSearch(NormalizeSearch(t)) == NormalizeSearch(t)
  {
    var n := NormalizeSearch(t);
    TrimStartLower(t); TrimEndLower(TrimStart(t));
    assert n == Trim(Lower(t));
    TrimStartLower(Lower(t)); TrimEndLower(TrimStart(Lower(t)));
    LowerIdempotent(t);
    assert Trim(n) == Trim(Lower(Lower(t)));
    LowerIdempotent(n);
  }

  /** A term normalises to "" exactly when it is blank, so a blank search
      shows every record. */
  lemma NormalizeEmptyIffBlank(t: string)
    ensures NormalizeSearch(t) == "" <==> Blank(t)
  {
    TrimEmptyIffBlank(t);
  }

  /** A normalised non-empty term neither starts nor ends with white space. */
  lemma NormalizedUnspaced(t: string)
    requires NormalizeSearch(t) != ""
    ensures !IsSpace(NormalizeSearch(t)[0])
  {
    var u := TrimStart(t);
    assert TrimEnd(u) != [];
    assert TrimEnd(u)[0] == u[0];
    LowerCharKeepsSpace(u[0]);
  }

  lemma {:induction false} JoinOfEmpties(parts: seq<string>, sep: string)
    requires forall i :: 0 <= i < |parts| ==> parts[i] == ""
    requires Blank(sep)
    ensures Blank(Join(parts, sep))
    decreases |parts|
  {
    if |parts| > 1 {
      JoinOfEmpties(parts[1..], sep);
      assert Join(parts, sep) == sep + Join(parts[1..], sep);
    }
  }

  /** The haystack of a record with none of the searched fields is white space. */
  lemma BlankHaystack(rec: Record, fields: seq<seq<string>>)
    requires forall i, k :: 0 <= i < |fields| && k in fields[i] ==> !Present(rec, k)
    ensures Blank(Haystack(rec, fields))
  {
    var parts := FieldTexts(rec, fields);
    forall i | 0 <= i < |fields| ensures parts[i] == "" {
      forall j | 0 <= j < |fields[i]| ensures !Present(rec, fields[i][j]) {
        assert fields[i][j] in fields[i];
      }
    }
    JoinOfEmpties(parts, " ");
    var joined := Join(parts, " ");
    forall j | 0 <= j < |joined| ensures IsSpace(Lower(joined)[j]) {
      LowerCharKeepsSpace(joined[j]);
    }
  }

  /** White space contains no term that starts with another character. */
  lemma BlankContainsNoWord(h: string, n: string)
    requires Blank(h) && n != "" && !IsSpace(n[0])
    ensures !Contains(h, n)
  {
    ContainsIff(h, n);
    forall j | 0 <= j && j + |n| <= |h| ensures !OccursAt(h, n, j) {
      assert h[j..j + |n|][0] == h[j];
    }
  }

  /** A record in which none of the searched fields is present is found only
      by a blank search: its haystack is white space, and a normalised term
      that is not empty starts with a character that is not. */
  lemma EmptyRecordFoundOnlyByBlankSearch(rec: Record, fields: seq<seq<string>>, t: string)
    requires forall i, k :: 0 <= i < |fields| && k in fields[i] ==> !Present(rec, k)
    ensures MatchesSearch(rec, fields, NormalizeSearch(t)) <==> Blank(t)
  {
    NormalizeEmptyIffBlank(t);
    BlankHaystack(rec, fields);
    var n := NormalizeSearch(t);
    if n != "" {
      NormalizedUnspaced(t);
      BlankContainsNoWord(Haystack(rec, fields), n);
    }
  }
}

/** The platform table and split_company_from_broadcast: a broadcast label that
    ends in a home-shopping platform name loses that name, and the name and its
    Live/TC tag become two separate cells. */
module Platform {
  import opened Wrappers
  import opened Text

  /** PLATFORM_MAP in its insertion order: platform display name and tag. */
  const PlatformMap: seq<(string, string)> := [
    ("CJ온스타일", "Live"), ("CJ온스타일 플러스", "TC"), ("GS홈쇼핑", "Live"), ("GS홈쇼핑 마이샵", "TC"),
    ("KT알파쇼핑", "TC"), ("NS홈쇼핑", "Live"), ("NS홈쇼핑 샵플러스", "TC"), ("SK스토아", "TC"),
    ("공영쇼핑", "Live"), ("롯데원티비", "TC"), ("롯데홈쇼핑", "Live"), ("쇼핑엔티", "TC"),
    ("신세계쇼핑", "TC"), ("현대홈쇼핑", "Live"), ("현대홈쇼핑 플러스샵", "TC"), ("홈앤쇼핑", "Live")
  ]

  /** PLATFORMS_BY_LEN, each name paired with its PLATFORM_MAP tag: the entries
      sorted by name length, longest first, ties in insertion order (Python's
      sort is stable, also with reverse=True). */
  const PlatformsByLen: seq<(string, string)> := [
    ("CJ온스타일 플러스", "TC"), ("NS홈쇼핑 샵플러스", "TC"), ("현대홈쇼핑 플러스샵", "TC"),
    ("GS홈쇼핑 마이샵", "TC"),
    ("CJ온스타일", "Live"), ("KT알파쇼핑", "TC"),
    ("GS홈쇼핑", "Live"), ("NS홈쇼핑", "Live"), ("SK스토아", "TC"), ("롯데원티비", "TC"),
    ("롯데홈쇼핑", "Live"), ("신세계쇼핑", "TC"), ("현대홈쇼핑", "Live"),
    ("공영쇼핑", "Live"), ("쇼핑엔티", "TC"), ("홈앤쇼핑", "Live")
  ]

  predicate IsTag(tag: string)
  {
    tag == "Live" || tag == "TC"
  }

  /** Names never end in whitespace, so `\s*$` after one can only match the empty
      end of an already right-trimmed text. */
  predicate UsableKey(key: string)
  {
    key != [] && !IsSpace(key[|key| - 1])
  }

  predicate WellFormedTable(table: seq<(string, string)>)
  {
    forall i | 0 <= i < |table| :: UsableKey(table[i].0) && IsTag(table[i].1)
  }

  predicate SortedByLength(table: seq<(string, string)>)
  {
    forall i, j | 0 <= i < j < |table| :: |table[i].0| >= |table[j].0|
  }

  predicate DistinctNames(table: seq<(string, string)>)
  {
    forall i, j | 0 <= i < j < |table| :: table[i].0 != table[j].0
  }

  /** Adjacent lengths never increase; enough for SortedByLength. */
  predicate StepSorted(table: seq<(string, string)>)
  {
    forall i | 0 <= i < |table| - 1 :: |table[i].0| >= |table[i + 1].0|
  }

  lemma {:induction false} StepSortedIsSorted(table: seq<(string, string)>)
    requires StepSorted(table)
    ensures SortedByLength(table)
  {
    if |table| > 1 {
      StepSortedIsSorted(table[1..]);
      forall i, j | 0 <= i < j < |table|
        ensures |table[i].0| >= |table[j].0|
      {
        if i > 0 {
          assert table[i] == table[1..][i - 1] && table[j] == table[1..][j - 1];
        } else if j > 1 {
          assert table[j] == table[1..][j - 1] && table[1] == table[1..][0];
        }
      }
    }
  }

  /** Position k of PlatformsByLen holds entry ByLenSource[k] of PlatformMap. */
  const ByLenSource: seq<nat> := [1, 6, 14, 3, 0, 4, 2, 5, 7, 9, 10, 12, 13, 8, 11, 15]

  /** PlatformsByLen is what Python's stable sort of the names by length,
      descending, produces: a rearrangement of the same (distinct) entries, longest name
      first, names of equal length in insertion order. */
  lemma PlatformsByLenIsStableSort()
    ensures DistinctNames(PlatformMap)
    ensures |PlatformsByLen| == |PlatformMap|
    ensures forall e | e in PlatformMap :: e in PlatformsByLen
    ensures forall e | e in PlatformsByLen :: e in PlatformMap
    ensures SortedByLength(PlatformsByLen)
    ensures |ByLenSource| == |PlatformsByLen|
    ensures forall k | 0 <= k < |ByLenSource| ::
      ByLenSource[k] < |PlatformMap| && PlatformsByLen[k] == PlatformMap[ByLenSource[k]]
    ensures forall i, j | 0 <= i < j < |PlatformsByLen| && |PlatformsByLen[i].0| == |PlatformsByLen[j].0| ::
      ByLenSource[i] < ByLenSource[j]
  {
    PlatformMapDistinct();
    PlatformsByLenSameEntries();
    PlatformsByLenSorted();
    PlatformsByLenSource();
    PlatformsByLenTiesInOrder();
  }

  lemma PlatformMapDistinct()
    ensures DistinctNames(PlatformMap)
  {
  }

  lemma PlatformsByLenSameEntries()
    ensures |PlatformsByLen| == |PlatformMap|
    ensures forall e | e in PlatformMap :: e in PlatformsByLen
    ensures forall e | e in PlatformsByLen :: e in PlatformMap
  {
  }

  lemma PlatformsByLenSource()
    ensures |ByLenSource| == |PlatformsByLen|
    ensures forall k | 0 <= k < |ByLenSource| ::
      ByLenSource[k] < |PlatformMap| && PlatformsByLen[k] == PlatformMap[ByLenSource[k]]
  {
  }

  lemma PlatformsByLenTiesInOrder()
    ensures |ByLenSource| == |PlatformsByLen|
    ensures forall i, j | 0 <= i < j < |PlatformsByLen| && |PlatformsByLen[i].0| == |PlatformsByLen[j].0| ::
      ByLenSource[i] < ByLenSource[j]
  {
  }

  lemma PlatformsByLenStepSorted()
    ensures StepSorted(PlatformsByLen)
  {
  }

  /** PLATFORMS_BY_LEN is sorted longest name first. */
  lemma PlatformsByLenSorted()
    ensures SortedByLength(PlatformsByLen)
  {
    PlatformsByLenStepSorted();
    StepSortedIsSorted(PlatformsByLen);
  }

  /** Every name can be matched as a suffix and carries a Live or TC tag. */
  lemma PlatformsByLenWellFormed()
    ensures WellFormedTable(PlatformsByLen)
  {
  }

  // ---------------------------------------------------------------------
  // The pattern built from a key: optional whitespace, the key taken
  // literally, optional whitespace, then the end of the text
  // ---------------------------------------------------------------------

  /** The pattern matches t starting at p: whitespace t[p..q], then key
      literally, then whitespace to the end. (`$` may also match just before a
      final newline, but a newline is whitespace and is absorbed by the greedy
      `\s*`, so that alternative starts at the same positions.) */
  predicate MatchesAt(t: string, key: string, p: nat)
  {
    && p <= |t|
    && exists q | p <= q <= |t| - |key| :: MatchesVia(t, key, p, q)
  }

  /** The match from p that finds key at position q. */
  predicate MatchesVia(t: string, key: string, p: nat, q: nat)
    requires p <= q <= |t| - |key|
  {
    AllSpace(t[p..q]) && t[q..q + |key|] == key && AllSpace(t[q + |key|..])
  }

  /** The leftmost position at or after i where a match starts, as re.search
      scans. */
  function FirstMatchFrom(t: string, key: string, i: nat): (r: Option<nat>)
    requires i <= |t| + 1
    decreases |t| + 1 - i
    ensures r.Some? ==> i <= r.value <= |t| && MatchesAt(t, key, r.value)
    ensures r.Some? ==> forall j | i <= j < r.value :: !MatchesAt(t, key, j)
    ensures r.None? ==> forall j | i <= j <= |t| :: !MatchesAt(t, key, j)
  {
    if i > |t| then None
    else if MatchesAt(t, key, i) then Some(i)
    else FirstMatchFrom(t, key, i + 1)
  }

  /** The search finds the pattern somewhere in t. */
  predicate Search(t: string, key: string)
  {
    FirstMatchFrom(t, key, 0).Some?
  }

  /** The substitution that deletes every match of the pattern. A match runs
      to the end of t, so the scan for a further match starts at the end,
      where a non-empty key cannot match: only the leftmost match is removed. */
  function Sub(t: string, key: string): string
  {
    match FirstMatchFrom(t, key, 0)
    case None => t
    case Some(p) => t[..p]
  }

  /** The text does not end in whitespace, as after str.rstrip(). */
  predicate NoTrailingSpace(t: string)
  {
    t == [] || !IsSpace(t[|t| - 1])
  }

  /** On a right-trimmed text, the pattern matches at p exactly when the text
      ends with key and only whitespace lies between p and that suffix. */
  lemma {:induction false} MatchesAtTrimmed(t: string, key: string, p: nat)
    requires NoTrailingSpace(t)
    requires UsableKey(key)
    ensures MatchesAt(t, key, p) <==>
      EndsWith(t, key) && p <= |t| - |key| && AllSpace(t[p..|t| - |key|])
  {
    if MatchesAt(t, key, p) {
      MatchEndsAtEnd(t, key, p);
    }
    if EndsWith(t, key) && p <= |t| - |key| && AllSpace(t[p..|t| - |key|]) {
      var q := |t| - |key|;
      assert t[q + |key|..] == [];
      assert MatchesVia(t, key, p, q);
    }
  }

  lemma {:induction false} MatchEndsAtEnd(t: string, key: string, p: nat)
    requires NoTrailingSpace(t)
    requires UsableKey(key)
    requires MatchesAt(t, key, p)
    ensures EndsWith(t, key) && p <= |t| - |key| && AllSpace(t[p..|t| - |key|])
  {
    var q :| p <= q <= |t| - |key| && MatchesVia(t, key, p, q);
    if q + |key| < |t| {
      assert false;
    }
  }

  /** On a right-trimmed text, re.search finds the pattern exactly when the text
      ends with key, and re.sub leaves the text before key right-trimmed: the
      leftmost match also swallows the whitespace in front of key. */
  lemma {:induction false} SearchSubTrimmed(t: string, key: string)
    requires NoTrailingSpace(t)
    requires UsableKey(key)
    ensures Search(t, key) <==> EndsWith(t, key)
    ensures EndsWith(t, key) ==> Sub(t, key) == RTrim(t[..|t| - |key|])
  {
    if EndsWith(t, key) {
      var u := t[..|t| - |key|];
      RTrimSpec(u);
      var p := |RTrim(u)|;
      assert t[p..|t| - |key|] == u[p..];
      MatchesAtTrimmed(t, key, p);
      forall j | 0 <= j < p
        ensures !MatchesAt(t, key, j)
      {
        MatchesAtTrimmed(t, key, j);
        assert t[j..|t| - |key|][p - 1 - j] == RTrim(u)[p - 1];
      }
      assert FirstMatchFrom(t, key, 0) == Some(p);
    } else {
      forall j | 0 <= j <= |t|
        ensures !MatchesAt(t, key, j)
      {
        MatchesAtTrimmed(t, key, j);
      }
    }
  }

  // ---------------------------------------------------------------------
  // split_company_from_broadcast
  // ---------------------------------------------------------------------

  /** (cleaned, company, tag) as split_company_from_broadcast returns them;
      company and tag are "" when no platform name was found. */
  datatype Split = Split(cleaned: string, company: string, tag: string)

  /** Some table entry is a suffix of t. */
  predicate HasSuffixIn(table: seq<(string, string)>, t: string)
  {
    exists e | e in table :: EndsWith(t, e.0)
  }

  /** The loop over the table: the first name whose pattern re.search finds in
      t wins; cleaned is t with that match deleted, right-trimmed. Falling off
      the end returns the original text. */
  function ScanTable(table: seq<(string, string)>, t: string, text: string): Split
  {
    if table == [] then Split(text, "", "")
    else if Search(t, table[0].0) then Split(RTrim(Sub(t, table[0].0)), table[0].0, table[0].1)
    else ScanTable(table[1..], t, text)
  }

  /** Over a table sorted longest name first, the scan returns the longest entry
      that is a suffix of t, with the text before it right-trimmed; when no entry
      is a suffix it returns the original text with empty company and tag. */
  lemma {:induction false} ScanTableFindsLongestSuffix(table: seq<(string, string)>, t: string, text: string)
    requires WellFormedTable(table)
    requires SortedByLength(table)
    requires NoTrailingSpace(t)
    ensures var r := ScanTable(table, t, text);
      && (r.company == "" <==> !HasSuffixIn(table, t))
      && (r.company == "" ==> r == Split(text, "", ""))
      && (r.company != "" ==>
            && (r.company, r.tag) in table
            && EndsWith(t, r.company)
            && r.cleaned == RTrim(t[..|t| - |r.company|])
            && forall e | e in table && EndsWith(t, e.0) :: |e.0| <= |r.company|)
  {
    if table != [] {
      var key := table[0].0;
      assert UsableKey(key);
      SearchSubTrimmed(t, key);
      if Search(t, key) {
        RTrimIdempotent(t[..|t| - |key|]);
        forall e | e in table && EndsWith(t, e.0)
          ensures |e.0| <= |key|
        {
          var j :| 0 <= j < |table| && table[j] == e;
          if j > 0 {
            assert |table[0].0| >= |table[j].0|;
          }
        }
      } else {
        var rest := table[1..];
        assert WellFormedTable(rest) by {
          forall i | 0 <= i < |rest|
            ensures UsableKey(rest[i].0) && IsTag(rest[i].1)
          {
            assert rest[i] == table[i + 1];
          }
        }
        assert SortedByLength(rest) by {
          forall i, j | 0 <= i < j < |rest|
            ensures |rest[i].0| >= |rest[j].0|
          {
            assert rest[i] == table[i + 1] && rest[j] == table[j + 1];
          }
        }
        ScanTableFindsLongestSuffix(rest, t, text);
        assert forall e | e in table :: e == table[0] || e in rest;
      }
    }
  }

  /** split_company_from_broadcast(text). Empty text comes back unchanged;
      otherwise the right-trimmed text is scanned against PLATFORMS_BY_LEN. */
  function SplitCompanyFromBroadcast(text: string): Split
  {
    if text == [] then Split(text, "", "") else ScanTable(PlatformsByLen, RTrim(text), text)
  }

  /** What the splitter promises. No platform name ends the right-trimmed text
      (or the text is empty) exactly when company comes back empty, and then
      the text is returned unchanged. Otherwise company is the longest platform
      name ending the right-trimmed text, tag is its PLATFORM_MAP value, and
      cleaned is what precedes the name, right-trimmed. */
  lemma {:induction false} SplitCompanyFromBroadcastSpec(text: string)
    ensures var r := SplitCompanyFromBroadcast(text);
      && (r.company == "" <==> (text == [] || !HasSuffixIn(PlatformMap, RTrim(text))))
      && (r.company == "" ==> r == Split(text, "", ""))
      && (r.company != "" ==>
            var t := RTrim(text);
            && (r.company, r.tag) in PlatformMap
            && IsTag(r.tag)
            && EndsWith(t, r.company)
            && r.cleaned == RTrim(t[..|t| - |r.company|])
            && (forall e | e in PlatformMap && e.0 == r.company :: e.1 == r.tag)
            && forall e | e in PlatformMap && EndsWith(t, e.0) :: |e.0| <= |r.company|)
  {
    if text != [] {
      var t := RTrim(text);
      RTrimSpec(text);
      PlatformsByLenIsStableSort();
      PlatformsByLenWellFormed();
      ScanTableFindsLongestSuffix(PlatformsByLen, t, text);
      assert HasSuffixIn(PlatformMap, t) <==> HasSuffixIn(PlatformsByLen, t);
    }
  }

  /** The empty broadcast cell splits into three empty cells. */
  lemma SplitEmpty()
    ensures SplitCompanyFromBroadcast("") == Split("", "", "")
  {
  }

  /** Two suffixes of t of the same length are the same string. */
  lemma SameLengthSuffixes(t: string, a: string, b: string)
    requires EndsWith(t, a) && EndsWith(t, b) && |a| == |b|
    ensures a == b
  {
  }

  /** In a table with distinct names, an entry is fixed by its name. */
  lemma {:induction false} DistinctNamesSameEntry(table: seq<(string, string)>, x: (string, string), y: (string, string))
    requires DistinctNames(table)
    requires x in table && y in table && x.0 == y.0
    ensures x == y
  {
    var i :| 0 <= i < |table| && table[i] == x;
    var j :| 0 <= j < |table| && table[j] == y;
    assert i == j;
  }

  /** Over a table with distinct names, the scan's result is fixed by the
      longest entry that ends t. */
  lemma {:induction false} ScanTableByLongestSuffix(table: seq<(string, string)>, t: string, text: string, e: (string, string))
    requires WellFormedTable(table) && SortedByLength(table) && DistinctNames(table)
    requires NoTrailingSpace(t)
    requires e in table && EndsWith(t, e.0)
    requires forall e' | e' in table && EndsWith(t, e'.0) :: |e'.0| <= |e.0|
    ensures ScanTable(table, t, text) == Split(RTrim(t[..|t| - |e.0|]), e.0, e.1)
  {
    ScanTableFindsLongestSuffix(table, t, text);
    var r := ScanTable(table, t, text);
    assert HasSuffixIn(table, t);
    var found := (r.company, r.tag);
    assert found in table && EndsWith(t, found.0);
    assert |found.0| == |e.0|;
    SameLengthSuffixes(t, found.0, e.0);
    DistinctNamesSameEntry(table, found, e);
  }

  lemma PlatformsByLenDistinct()
    ensures DistinctNames(PlatformsByLen)
  {
  }

  /** ScanTableByLongestSuffix with the premises stated over a second table
      holding the same entries. */
  lemma {:induction false} ScanTableBySameEntries(table: seq<(string, string)>, src: seq<(string, string)>,
                               t: string, text: string, e: (string, string))
    requires WellFormedTable(table) && SortedByLength(table) && DistinctNames(table)
    requires forall x | x in src :: x in table
    requires forall x | x in table :: x in src
    requires NoTrailingSpace(t)
    requires e in src && EndsWith(t, e.0)
    requires forall e' | e' in src && EndsWith(t, e'.0) :: |e'.0| <= |e.0|
    ensures ScanTable(table, t, text) == Split(RTrim(t[..|t| - |e.0|]), e.0, e.1)
  {
    ScanTableByLongestSuffix(table, t, text, e);
  }

  /** Conversely, the split is determined by the longest platform name that
      ends the right-trimmed text. */
  lemma {:induction false} SplitByLongestSuffix(text: string, e: (string, string))
    requires text != []
    requires e in PlatformMap && EndsWith(RTrim(text), e.0)
    requires forall e' | e' in PlatformMap && EndsWith(RTrim(text), e'.0) :: |e'.0| <= |e.0|
    ensures var t := RTrim(text);
      SplitCompanyFromBroadcast(text) == Split(RTrim(t[..|t| - |e.0|]), e.0, e.1)
  {
    RTrimSpec(text);
    PlatformsByLenSameEntries();
    PlatformsByLenSorted();
    PlatformsByLenWellFormed();
    PlatformsByLenDistinct();
    ScanTableBySameEntries(PlatformsByLen, PlatformMap, RTrim(text), text, e);
  }

  /** Of two suffixes of one text, the shorter is a suffix of the longer. */
  lemma SuffixOfSuffix(t: string, a: string, b: string)
    requires EndsWith(t, a) && EndsWith(t, b) && |a| <= |b|
    ensures EndsWith(b, a)
  {
    forall k | 0 <= k < |a|
      ensures b[|b| - |a|..][k] == a[k]
    {
      assert b[|b| - |a| + k] == t[|t| - |b| + (|b| - |a| + k)];
      assert a[k] == t[|t| - |a|..][k];
    }
  }

  /** The last three characters of a name. */
  function Tail3(s: string): (char, char, char)
    requires |s| >= 3
  {
    (s[|s| - 3], s[|s| - 2], s[|s| - 1])
  }

  /** Every name has at least three characters, and two names that end in the
      same three characters have the same length. */
  predicate TailsFixLength(table: seq<(string, string)>)
  {
    && (forall i | 0 <= i < |table| :: |table[i].0| >= 3)
    && (forall i, j | 0 <= i < j < |table| ::
          Tail3(table[i].0) == Tail3(table[j].0) ==> |table[i].0| == |table[j].0|)
  }

  /** PLATFORM_MAP satisfies TailsFixLength: the names end in twelve distinct
      triples, and the names sharing a triple have equal length. */
  lemma PlatformMapNameTails()
    ensures forall i | 0 <= i < |PlatformMap| :: |PlatformMap[i].0| >= 3
    ensures forall i, j | 0 <= i < j < |PlatformMap| ::
      Tail3(PlatformMap[i].0) == Tail3(PlatformMap[j].0) ==> |PlatformMap[i].0| == |PlatformMap[j].0|
  {
  }

  /** A suffix of at least three characters shares the last three. */
  lemma SuffixTail3(b: string, a: string)
    requires EndsWith(b, a) && |a| >= 3
    ensures Tail3(b) == Tail3(a)
  {
    var k := |b| - |a|;
    assert b[k..][|a| - 3] == b[|b| - 3];
    assert b[k..][|a| - 2] == b[|b| - 2];
    assert b[k..][|a| - 1] == b[|b| - 1];
  }

  /** In a table whose name endings fix the length and whose names are
      distinct, at most one entry ends any text. */
  lemma {:induction false} AtMostOneSuffixIn(table: seq<(string, string)>, t: string,
                                             e1: (string, string), e2: (string, string))
    requires TailsFixLength(table) && DistinctNames(table)
    requires e1 in table && e2 in table
    requires EndsWith(t, e1.0) && EndsWith(t, e2.0)
    ensures e1 == e2
  {
    var i :| 0 <= i < |table| && table[i] == e1;
    var j :| 0 <= j < |table| && table[j] == e2;
    if |e1.0| <= |e2.0| {
      SuffixOfSuffix(t, e1.0, e2.0);
      SuffixTail3(e2.0, e1.0);
    } else {
      SuffixOfSuffix(t, e2.0, e1.0);
      SuffixTail3(e1.0, e2.0);
    }
    assert |e1.0| == |e2.0| by {
      if i < j {
      } else if j < i {
      }
    }
    assert e1.0 == e2.0 by {
      SuffixOfSuffix(t, e1.0, e2.0);
      assert e2.0[|e2.0| - |e1.0|..] == e2.0;
    }
    DistinctNamesSameEntry(table, e1, e2);
  }

  /** At most one PLATFORM_MAP entry ends any text. */
  lemma AtMostOneSuffix(t: string, e1: (string, string), e2: (string, string))
    requires e1 in PlatformMap && e2 in PlatformMap
    requires EndsWith(t, e1.0) && EndsWith(t, e2.0)
    ensures e1 == e2
  {
    PlatformMapNameTails();
    PlatformMapDistinct();
    AtMostOneSuffixIn(PlatformMap, t, e1, e2);
  }

  /** No PLATFORM_MAP name ends another one. */
  lemma {:induction false} NoNameEndsAnother()
    ensures forall i, j | 0 <= i < |PlatformMap| && 0 <= j < |PlatformMap| && i != j ::
      !EndsWith(PlatformMap[j].0, PlatformMap[i].0)
  {
    forall i, j | 0 <= i < |PlatformMap| && 0 <= j < |PlatformMap| && i != j
      ensures !EndsWith(PlatformMap[j].0, PlatformMap[i].0)
    {
      var b := PlatformMap[j].0;
      PlatformMapDistinct();
      assert PlatformMap[i] != PlatformMap[j] by {
        if i < j {
        } else {
        }
      }
      assert EndsWith(b, b) by {
        assert b[|b| - |b|..] == b;
      }
      if EndsWith(b, PlatformMap[i].0) {
        AtMostOneSuffix(b, PlatformMap[i], PlatformMap[j]);
        assert false;
      }
    }
  }

  /** For this table the longest-first order never decides the split: whichever
      name ends the right-trimmed label is the one split off. */
  lemma {:induction false} SplitBySuffix(text: string, e: (string, string))
    requires e in PlatformMap && EndsWith(RTrim(text), e.0)
    ensures var t := RTrim(text);
      SplitCompanyFromBroadcast(text) == Split(RTrim(t[..|t| - |e.0|]), e.0, e.1)
  {
    RTrimSpec(text);
    assert e.0 != [];
    forall e' | e' in PlatformMap && EndsWith(RTrim(text), e'.0)
      ensures |e'.0| <= |e.0|
    {
      AtMostOneSuffix(RTrim(text), e', e);
    }
    SplitByLongestSuffix(text, e);
  }

  const ExampleLabel := "이번주 특가상품 GS홈쇼핑 마이샵"

  /** The example label loses its trailing "GS홈쇼핑 마이샵", which becomes the
      company with tag TC. */
  lemma SplitExampleLabel()
    ensures SplitCompanyFromBroadcast(ExampleLabel) == Split("이번주 특가상품", "GS홈쇼핑 마이샵", "TC")
  {
    ExampleLabelFacts();
    ExampleLabelLongest();
    SplitByLongestSuffix(ExampleLabel, ("GS홈쇼핑 마이샵", "TC"));
  }

  /** No platform name longer than "GS홈쇼핑 마이샵" ends the example label. */
  lemma ExampleLabelLongest()
    ensures forall e' | e' in PlatformMap && EndsWith(ExampleLabel, e'.0) :: |e'.0| <= 9
  {
    ExampleLabelFacts();
    LongNames();
  }

  lemma ExampleLabelFacts()
    ensures RTrim(ExampleLabel) == ExampleLabel
    ensures EndsWith(ExampleLabel, "GS홈쇼핑 마이샵") && ("GS홈쇼핑 마이샵", "TC") in PlatformMap
    ensures !EndsWith(ExampleLabel, "CJ온스타일 플러스")
    ensures !EndsWith(ExampleLabel, "NS홈쇼핑 샵플러스")
    ensures !EndsWith(ExampleLabel, "현대홈쇼핑 플러스샵")
    ensures RTrim(ExampleLabel[..|ExampleLabel| - 9]) == "이번주 특가상품"
  {
    var text := ExampleLabel;
    assert NoTrailingSpace(text) by {
      assert text[|text| - 1] == '샵';
    }
    RTrimUnique(text, text);
    var u := "이번주 특가상품 ";
    assert text[..|text| - 9] == u;
    RTrimUnique(u, "이번주 특가상품");
  }

  /** The names longer than nine characters. */
  lemma LongNames()
    ensures forall e | e in PlatformMap && |e.0| > 9 ::
      e.0 in ["CJ온스타일 플러스", "NS홈쇼핑 샵플러스", "현대홈쇼핑 플러스샵"]
  {
  }
}

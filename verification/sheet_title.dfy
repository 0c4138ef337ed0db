/** unique_sheet_title: the first of base, base-2, base-3, ... that no existing
    worksheet is titled with. */
module SheetTitle {
  import opened Text

  /** The n-th title tried: base itself, then base, a hyphen and n in decimal, for n = 2, 3, ... */
  function Candidate(base: string, n: nat): string
    requires n >= 1
  {
    if n == 1 then base else base + "-" + NatToString(n)
  }

  /** Different attempts try different titles, so the loop never revisits one. */
  lemma {:induction false} CandidateInjective(base: string, m: nat, n: nat)
    requires m >= 1 && n >= 1
    requires Candidate(base, m) == Candidate(base, n)
    ensures m == n
  {
    if m > 1 && n > 1 {
      assert Candidate(base, m)[|base| + 1..] == NatToString(m);
      assert Candidate(base, n)[|base| + 1..] == NatToString(n);
      NatToStringInjective(m, n);
    }
  }

  /** title is free, is one of the candidates, and every earlier candidate is
      taken. */
  ghost predicate FirstFree(existing: set<string>, base: string, title: string)
  {
    && title !in existing
    && exists n: nat | n >= 1 ::
         && title == Candidate(base, n)
         && forall m: nat | 1 <= m < n :: Candidate(base, m) in existing
  }

  /** At most one title is the first free candidate. */
  lemma {:induction false} FirstFreeUnique(existing: set<string>, base: string, t1: string, t2: string)
    requires FirstFree(existing, base, t1)
    requires FirstFree(existing, base, t2)
    ensures t1 == t2
  {
    var n1: nat :| n1 >= 1 && t1 == Candidate(base, n1) && forall m: nat | 1 <= m < n1 :: Candidate(base, m) in existing;
    var n2: nat :| n2 >= 1 && t2 == Candidate(base, n2) && forall m: nat | 1 <= m < n2 :: Candidate(base, m) in existing;
  }

  /** With "9/10" and "9/10-2" taken, the next title is "9/10-3". */
  lemma FirstFreeExample()
    ensures FirstFree({"9/10", "9/10-2"}, "9/10", "9/10-3")
  {
    var existing := {"9/10", "9/10-2"};
    assert NatToString(2) == "2" && NatToString(3) == "3";
    assert Candidate("9/10", 3) == "9/10-3";
    forall m: nat | 1 <= m < 3
      ensures Candidate("9/10", m) in existing
    {
      if m == 2 {
        assert Candidate("9/10", 2) == "9/10-2";
      }
    }
  }

  /** unique_sheet_title, with the spreadsheet's worksheet titles as a finite
      set: looking a title up succeeds exactly for a title in it. */
  method UniqueSheetTitle(existing: set<string>, base: string) returns (title: string)
    ensures title !in existing
    ensures title == base || exists n: nat | n >= 2 :: title == base + "-" + NatToString(n)
    ensures FirstFree(existing, base, title)
  {
    title := base;
    var n: nat := 1;
    ghost var tried: set<string> := {};
    while title in existing
      invariant n >= 1 && title == Candidate(base, n)
      invariant forall m: nat | 1 <= m < n :: Candidate(base, m) in existing
      invariant tried == set m: nat | 1 <= m < n :: Candidate(base, m)
      invariant tried <= existing
      invariant title !in tried
      decreases existing - tried
    {
      tried := tried + {title};
      n := n + 1;
      title := base + "-" + NatToString(n);
      forall m: nat | 1 <= m < n
        ensures Candidate(base, m) != title
      {
        if Candidate(base, m) == title {
          CandidateInjective(base, m, n);
        }
      }
    }
    if n >= 2 {
      assert title == base + "-" + NatToString(n);
    }
  }
}

/** The dated snapshot sheet: the size it is created with, and the pass that
    moves the platform name out of the broadcast column into two new columns. */
module Snapshot {
  import opened Text
  import opened Platform

  /** The two column names appended to the header. */
  const AddedHeader: seq<string> := ["회사명", "홈쇼핑구분"]

  /** The values read back from the sheet; a sheet with no values reads as a
      single row holding one empty cell. */
  function ReadValues(got: seq<seq<string>>): seq<seq<string>>
  {
    if got == [] then [[""]] else got
  }

  /** The length of the longest row. */
  function MaxRowLength(values: seq<seq<string>>): (n: nat)
    requires values != []
    ensures forall i | 0 <= i < |values| :: |values[i]| <= n
    ensures exists i | 0 <= i < |values| :: |values[i]| == n
  {
    if |values| == 1 then |values[0]|
    else
      var m := MaxRowLength(values[1..]);
      assert forall i | 1 <= i < |values| :: values[i] == values[1..][i - 1];
      if |values[0]| >= m then |values[0]| else m
  }

  /** rows_cnt and cols_cnt for add_worksheet: the smallest sheet of at least
      2 x 2 cells that holds every row of the copied values. */
  function SnapshotSize(got: seq<seq<string>>): (size: (nat, nat))
    ensures var values := ReadValues(got);
      && size.0 >= 2 && size.0 >= |values| && (size.0 == 2 || size.0 == |values|)
      && size.1 >= 2 && (forall i | 0 <= i < |values| :: |values[i]| <= size.1)
      && (size.1 == 2 || exists i | 0 <= i < |values| :: |values[i]| == size.1)
  {
    var values := ReadValues(got);
    var rows := if |values| > 2 then |values| else 2;
    var longest := MaxRowLength(values);
    var cols := if longest > 2 then longest else 2;
    (rows, cols)
  }

  /** r extended with empty cells up to width; a row already at least that
      long is left as it is. */
  function Pad(r: seq<string>, width: nat): (p: seq<string>)
    ensures |p| == if |r| >= width then |r| else width
    ensures forall j | 0 <= j < |p| :: p[j] == if j < |r| then r[j] else ""
  {
    if |r| >= width then r else r + seq(width - |r|, _ => "")
  }

  /** The text handed to the splitter: cell 1 of the padded row, stripped, or
      "" when the padded row has no cell 1. */
  function BroadcastCell(r: seq<string>, width: nat): string
  {
    var padded := Pad(r, width);
    if |padded| > 1 then Strip(padded[1]) else ""
  }

  /** One data row of the augmentation loop. */
  function AugmentRow(width: nat, r: seq<string>): seq<string>
  {
    var padded := Pad(r, width);
    var s := SplitCompanyFromBroadcast(BroadcastCell(r, width));
    (if |padded| > 1 then padded[1 := s.cleaned] else padded) + [s.company, s.tag]
  }

  /** A data row is padded to the header width n; only cell 1 changes, to the
      splitter's cleaned text, and company and tag follow at n and n + 1. */
  lemma AugmentRowSpec(width: nat, r: seq<string>)
    ensures var out := AugmentRow(width, r);
      var n := if |r| >= width then |r| else width;
      var s := SplitCompanyFromBroadcast(BroadcastCell(r, width));
      && |out| == n + 2
      && (forall j | 0 <= j < n && j != 1 :: out[j] == if j < |r| then r[j] else "")
      && (n > 1 ==> out[1] == s.cleaned)
      && out[n] == s.company && out[n + 1] == s.tag
  {
  }

  /** The augmentation block: header extended by the two names, every data row
      padded to the header, its broadcast cell cleaned and company and tag
      appended. */
  function Augment(got: seq<seq<string>>): (out: seq<seq<string>>)
    ensures var values := ReadValues(got);
      && |out| == |values|
      && out[0] == values[0] + AddedHeader
      && forall k | 1 <= k < |out| :: out[k] == AugmentRow(|values[0]|, values[k])
  {
    var values := ReadValues(got);
    var header := values[0];
    var dataRows := values[1..];
    var rows := seq(|dataRows|, k requires 0 <= k < |dataRows| => AugmentRow(|header|, dataRows[k]));
    var out := [header + AddedHeader] + rows;
    out
  }

  /** The splitter sees the stripped original cell 1, or "" for a row with no
      cell 1 (padding supplies "" and stripping keeps it). */
  lemma {:induction false} BroadcastCellIsStrippedOriginal(r: seq<string>, width: nat)
    ensures |r| > 1 ==> BroadcastCell(r, width) == Strip(r[1])
    ensures |r| <= 1 ==> BroadcastCell(r, width) == ""
  {
    if |r| <= 1 && width > 1 {
      assert Pad(r, width)[1] == "";
    }
  }

  /** A row with no broadcast cell gets two empty cells appended and, when the
      header pads it past column 1, an empty column 1. */
  lemma {:induction false} AugmentShortRow(r: seq<string>, width: nat)
    requires |r| <= 1
    ensures var out := AugmentRow(width, r);
      && out[|out| - 2] == "" && out[|out| - 1] == ""
      && (width > 1 ==> out[1] == "")
  {
    AugmentRowSpec(width, r);
    BroadcastCellIsStrippedOriginal(r, width);
    SplitEmpty();
  }
}

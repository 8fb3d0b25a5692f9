/** The region source: `bed_reader` turns each tab-separated row
    (chrom, start, end) of a BED file into (chrom, str(int(start)+1),
    str(int(end))), converting half-open 0-based coordinates to closed
    1-based ones, and aborts the run on the first row it cannot convert. */
module Bed {
  import opened Common

  predicate IsDigit(ch: char) { '0' <= ch <= '9' }

  predicate AllDigits(s: string) { forall i :: 0 <= i < |s| ==> IsDigit(s[i]) }

  function DigitValue(ch: char): nat
    requires IsDigit(ch)
  {
    (ch - '0') as nat
  }

  function DigitChar(d: nat): (ch: char)
    requires d < 10
    ensures IsDigit(ch) && DigitValue(ch) == d
  {
    ('0' as int + d) as char
  }

  /** The value of a string of decimal digits, read left to right. */
  function ParseNat(s: string): nat
    requires AllDigits(s)
  {
    if s == [] then 0 else ParseNat(s[..|s| - 1]) * 10 + DigitValue(s[|s| - 1])
  }

  /** str() of a non-negative integer. */
  function ShowNat(n: nat): string
    decreases n
  {
    if n < 10 then [DigitChar(n)] else ShowNat(n / 10) + [DigitChar(n % 10)]
  }

  /** str() writes at least one decimal digit and no leading zero. */
  lemma {:induction false} ShowNatSpec(n: nat)
    ensures var s := ShowNat(n); |s| >= 1 && AllDigits(s) && (s[0] == '0' ==> n == 0)
    decreases n
  {
    if n >= 10 {
      ShowNatSpec(n / 10);
    }
  }

  /** str() of an integer. */
  function ShowInt(i: int): string
  {
    if i < 0 then "-" + ShowNat(-i) else ShowNat(i)
  }

  /** int() of a string: an optional sign followed by at least one digit. */
  function ParseInt(s: string): (r: Option<int>)
    ensures r.Some? ==> |s| >= 1
  {
    if |s| >= 1 && (s[0] == '-' || s[0] == '+') then
      var digits := s[1..];
      if |digits| >= 1 && AllDigits(digits) then
        Some(if s[0] == '-' then -(ParseNat(digits) as int) else ParseNat(digits))
      else None
    else if |s| >= 1 && AllDigits(s) then Some(ParseNat(s))
    else None
  }

  lemma {:induction false} ParseShowNat(n: nat)
    ensures AllDigits(ShowNat(n)) && ParseNat(ShowNat(n)) == n
    decreases n
  {
    ShowNatSpec(n);
    if n >= 10 {
      var s := ShowNat(n);
      assert s[..|s| - 1] == ShowNat(n / 10);
      ParseShowNat(n / 10);
    }
  }

  /** Printing an integer and parsing it back gives the integer. */
  lemma ParseShowInt(i: int)
    ensures ParseInt(ShowInt(i)) == Some(i)
  {
    var s := ShowInt(i);
    ShowNatSpec(if i < 0 then -i else i);
    if i < 0 {
      assert s[0] == '-' && s[1..] == ShowNat(-i);
      ParseShowNat(-i);
    } else {
      assert s == ShowNat(i) && IsDigit(s[0]);
      ParseShowNat(i);
    }
  }

  /** One row: fewer than three fields, or a start or end that int() rejects,
      is an invalid BED file. Fields after the third are ignored. */
  function ConvertRow(row: seq<string>): Option<Region>
  {
    if |row| < 3 then None
    else
      match (ParseInt(row[1]), ParseInt(row[2]))
      case (Some(a), Some(b)) => Some(Region(row[0], ShowInt(a + 1), ShowInt(b)))
      case _ => None
  }

  /** A row converts exactly when it has three fields and both coordinates
      parse; the chromosome is kept, parsing the new start gives the old
      start plus one, and parsing the new end gives the old end. */
  lemma ConvertRowSpec(row: seq<string>)
    ensures ConvertRow(row).Some? <==> |row| >= 3 && ParseInt(row[1]).Some? && ParseInt(row[2]).Some?
    ensures ConvertRow(row).Some? ==>
      var region := ConvertRow(row).value;
      region.chrom == row[0] &&
      ParseInt(region.start) == Some(ParseInt(row[1]).value + 1) &&
      ParseInt(region.end) == ParseInt(row[2])
  {
    if |row| >= 3 && ParseInt(row[1]).Some? && ParseInt(row[2]).Some? {
      ParseShowInt(ParseInt(row[1]).value + 1);
      ParseShowInt(ParseInt(row[2]).value);
    }
  }

  /** What the generator delivers: every region, or the regions before the
      first bad row (the caller has already processed those when the run
      aborts) and the index of that row. */
  datatype ReadResult =
    | Regions(regions: seq<Region>)
    | Invalid(before: seq<Region>, badRow: nat)

  function BedReader(rows: seq<seq<string>>): ReadResult
  {
    if rows == [] then Regions([])
    else
      match BedReader(rows[..|rows| - 1])
      case Invalid(before, k) => Invalid(before, k)
      case Regions(rs) =>
        match ConvertRow(rows[|rows| - 1])
        case None => Invalid(rs, |rows| - 1)
        case Some(region) => Regions(rs + [region])
  }

  /** Every row converted, in order, or the rows before the first bad one
      converted, in order, and the index of the bad one. */
  lemma {:induction false} BedReaderSpec(rows: seq<seq<string>>)
    ensures var r := BedReader(rows);
      r.Regions? ==>
      |r.regions| == |rows| &&
      forall i :: 0 <= i < |rows| ==> ConvertRow(rows[i]) == Some(r.regions[i])
    ensures var r := BedReader(rows);
      r.Invalid? ==>
      r.badRow < |rows| && |r.before| == r.badRow &&
      ConvertRow(rows[r.badRow]).None? &&
      forall i :: 0 <= i < r.badRow ==> ConvertRow(rows[i]) == Some(r.before[i])
  {
    if rows != [] {
      var init := rows[..|rows| - 1];
      BedReaderSpec(init);
      assert forall i :: 0 <= i < |init| ==> init[i] == rows[i];
      match BedReader(init)
      case Invalid(before, k) =>
      case Regions(rs) =>
        match ConvertRow(rows[|rows| - 1])
        case None =>
        case Some(region) =>
          assert forall i :: 0 <= i < |rs| ==> (rs + [region])[i] == rs[i];
    }
  }

  /** Exactly one region per row, in input order, when every row converts;
      otherwise the run stops at the first row that does not. */
  lemma BedReaderTotal(rows: seq<seq<string>>)
    ensures BedReader(rows).Regions? <==> forall i :: 0 <= i < |rows| ==> ConvertRow(rows[i]).Some?
  {
    BedReaderSpec(rows);
  }

  /** The half-open to closed conversion on the row chr1 100 200. */
  lemma ConvertExample()
    ensures ConvertRow(["chr1", "100", "200"]) == Some(Region("chr1", "101", "200"))
  {
    assert ParseNat("1") == 1;
    assert ParseNat("10") == 10 by { assert "10"[..1] == "1"; }
    assert ParseNat("100") == 100 by { assert "100"[..2] == "10"; }
    assert ParseNat("2") == 2;
    assert ParseNat("20") == 20 by { assert "20"[..1] == "2"; }
    assert ParseNat("200") == 200 by { assert "200"[..2] == "20"; }
    assert ParseInt("100") == Some(100);
    assert ParseInt("200") == Some(200);
    assert ShowNat(10) == "10";
    assert ShowNat(101) == "101";
    assert ShowNat(20) == "20";
    assert ShowNat(200) == "200";
  }
}

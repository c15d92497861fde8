/**
 * `package_repr`: one row per ranked entry, `f'{rank:2}. {name:{width}}\t{count}'`, where
 * `width` is the longest name plus 4. The rows are returned instead of printed.
 */
module Presenter {
  import opened Text
  import opened Frequency

  /** `max(len(name) for name, _ in entries)`; Python raises `ValueError` on an empty sequence. */
  function MaxNameLength(entries: seq<Entry>): (m: nat)
    requires |entries| > 0
    ensures forall i :: 0 <= i < |entries| ==> |entries[i].name| <= m
    ensures exists i :: 0 <= i < |entries| && |entries[i].name| == m
    decreases |entries|
  {
    if |entries| == 1 then |entries[0].name|
    else
      var rest := MaxNameLength(entries[1..]);
      assert forall i :: 1 <= i < |entries| ==> entries[i] == entries[1..][i - 1];
      if |entries[0].name| > rest then |entries[0].name| else rest
  }

  /** The row for the entry at 1-based position `rank`, with the name field `width` wide. */
  function Row(rank: nat, e: Entry, width: nat): (row: string)
    ensures |row| >= |PadLeft(Decimal(rank), 2)| + 3 + |Decimal(e.count)|
    ensures row[..|PadLeft(Decimal(rank), 2)|] == PadLeft(Decimal(rank), 2)
    ensures row[|row| - |Decimal(e.count)|..] == Decimal(e.count)
  {
    PadLeft(Decimal(rank), 2) + ". " + PadRight(e.name, width) + "\t" + Decimal(e.count)
  }

  /** The rows for `entries`, numbered from 1 in order, all name fields `width` wide. */
  function Rows(entries: seq<Entry>, width: nat): (rows: seq<string>)
    ensures |rows| == |entries|
  {
    seq(|entries|, i requires 0 <= i < |entries| => Row(i + 1, entries[i], width))
  }

  /** The rows of one more entry are the rows so far plus the row of that entry. */
  lemma RowsSnoc(entries: seq<Entry>, i: nat, width: nat)
    requires i < |entries|
    ensures Rows(entries[..i + 1], width) == Rows(entries[..i], width) + [Row(i + 1, entries[i], width)]
  {
    var a, b := Rows(entries[..i + 1], width), Rows(entries[..i], width) + [Row(i + 1, entries[i], width)];
    assert |a| == |b|;
    forall k | 0 <= k < |a| ensures a[k] == b[k] {
      assert entries[..i + 1][k] == entries[k];
      if k < i {
        assert entries[..i][k] == entries[k];
      }
    }
  }

  /**
   * The rows `package_repr` prints, numbered 1 to `|entries|` in input order, all name fields
   * padded to the longest name plus 4. Like the source, it needs at least one entry.
   */
  method FormatRows(entries: seq<Entry>) returns (rows: seq<string>)
    requires |entries| > 0
    ensures rows == Rows(entries, MaxNameLength(entries) + 4)
  {
    var maxLen := MaxNameLength(entries) + 4;
    rows := [];
    for i := 0 to |entries|
      invariant rows == Rows(entries[..i], maxLen)
    {
      var p := entries[i];
      var line := PadLeft(Decimal(i + 1), 2) + ". " + PadRight(p.name, maxLen) + "\t" + Decimal(p.count);
      assert line == Row(i + 1, p, maxLen);
      RowsSnoc(entries, i, maxLen);
      rows := rows + [line];
    }
    assert entries[..|entries|] == entries;
  }

  /** `package_repr` with the empty-input case handled: no entries, no rows. */
  method Report(entries: seq<Entry>) returns (rows: seq<string>)
    ensures |entries| == 0 ==> rows == []
    ensures |entries| > 0 ==> rows == Rows(entries, MaxNameLength(entries) + 4)
  {
    if |entries| == 0 {
      rows := [];
    } else {
      rows := FormatRows(entries);
    }
  }

  /** A rank below 100 takes exactly the two columns `{rank:2}` reserves. */
  lemma RankWidth(rank: nat)
    requires 1 <= rank <= 99
    ensures |PadLeft(Decimal(rank), 2)| == 2
  {
    var d := Decimal(rank);
    if rank >= 10 {
      var q := rank / 10;
      assert q < 10;
      assert Decimal(q) == [DigitChar(q)];
      assert d == Decimal(q) + [DigitChar(rank % 10)];
    }
    assert |d| <= 2;
  }

  /** Where the pieces of `lead + ". " + name + "\t" + digits` sit. */
  lemma FieldPositions(lead: string, name: string, digits: string)
    requires |lead| == 2
    ensures |lead + ". " + name + "\t" + digits| == |name| + 5 + |digits|
    ensures (lead + ". " + name + "\t" + digits)[..2] == lead
    ensures (lead + ". " + name + "\t" + digits)[2..4] == ". "
    ensures (lead + ". " + name + "\t" + digits)[4..4 + |name|] == name
    ensures (lead + ". " + name + "\t" + digits)[4 + |name|] == '\t'
    ensures (lead + ". " + name + "\t" + digits)[5 + |name|..] == digits
  {
  }

  /**
   * The layout of a row: the rank in columns 0-1, ". ", the name from column 4 padded with spaces
   * to `width`, a tab at column `4 + width`, then the count, which reads back as the number.
   */
  lemma RowLayout(rank: nat, e: Entry, width: nat)
    requires 1 <= rank <= 99 && |e.name| <= width
    ensures |Row(rank, e, width)| == width + 5 + |Decimal(e.count)|
    ensures Row(rank, e, width)[..2] == PadLeft(Decimal(rank), 2)
    ensures Row(rank, e, width)[2..4] == ". "
    ensures Row(rank, e, width)[4..4 + |e.name|] == e.name
    ensures forall k :: 4 + |e.name| <= k < 4 + width ==> Row(rank, e, width)[k] == ' '
    ensures Row(rank, e, width)[4 + width] == '\t'
    ensures DecimalValue(Row(rank, e, width)[5 + width..]) == e.count
  {
    RankWidth(rank);
    var lead, name, digits := PadLeft(Decimal(rank), 2), PadRight(e.name, width), Decimal(e.count);
    FieldPositions(lead, name, digits);
    var r := lead + ". " + name + "\t" + digits;
    assert Row(rank, e, width) == r;
    assert r[4..4 + |e.name|] == r[4..4 + width][..|e.name|];
    forall k | 4 + |e.name| <= k < 4 + width
      ensures r[k] == ' '
    {
      assert r[k] == r[4..4 + width][k - 4];
    }
    DecimalRoundTrip(e.count);
  }

  /**
   * With fewer than 100 entries every row of `Rows` has its tab, and so its count, in the same
   * column, and each name starts at column 4.
   */
  lemma RowsAligned(entries: seq<Entry>, width: nat, i: nat)
    requires |entries| <= 99 && i < |entries|
    requires forall k :: 0 <= k < |entries| ==> |entries[k].name| <= width
    ensures |Rows(entries, width)| == |entries|
    ensures Rows(entries, width)[i][4 + width] == '\t'
    ensures Rows(entries, width)[i][4..4 + |entries[i].name|] == entries[i].name
  {
    RowLayout(i + 1, entries[i], width);
  }
}

/** The transition table `ConvertToTransitionList` produces: one row per label, in the
    order the labels are first met, each row holding one cell per state id. A cell is
    the comma-joined names `q<id>` of the destinations, in the order they were
    registered. */
module Table {
  import opened Options

  datatype Row = Row(symbol: char, cells: seq<string>)

  /** The decimal digit for 0 <= d < 10. */
  function Digit(d: nat): char
    requires d < 10
  {
    (('0' as int) + d) as char
  }

  predicate IsDigit(c: char)
  {
    '0' <= c <= '9'
  }

  /** `int.ToString()` on a non-negative value: decimal, no leading zeros. */
  function NatToString(n: nat): string
    decreases n
  {
    if n < 10 then [Digit(n)] else NatToString(n / 10) + [Digit(n % 10)]
  }

  /** `int.ToString()`: a minus sign before the digits of a negative value. */
  function IntToString(n: int): string
  {
    if n < 0 then "-" + NatToString(-n) else NatToString(n)
  }

  /** The name a state id is written under. */
  function Name(id: int): string
  {
    "q" + IntToString(id)
  }

  /** The cell after registering `ids` in order: the first one written as `q<id>`, each
      later one appended as `,q<id>`. */
  function CellText(ids: seq<int>): string
  {
    if ids == [] then ""
    else if |ids| == 1 then Name(ids[0])
    else CellText(ids[..|ids| - 1]) + "," + Name(ids[|ids| - 1])
  }

  /** Registering one more id in a cell: the first name written alone, a later one
      after a comma. */
  function Extend(cell: string, id: int): string
  {
    if cell == "" then Name(id) else cell + "," + Name(id)
  }

  // ---------------------------------------------------------------------------
  // Reading a cell back: the inverse of CellText.

  /** The value of a digit string, read from the right. */
  function ParseNat(s: string): Option<nat>
  {
    if s == [] || !IsDigit(s[|s| - 1]) then None
    else
      var d := (s[|s| - 1] as int) - ('0' as int);
      if |s| == 1 then Some(d)
      else
        match ParseNat(s[..|s| - 1])
        case None => None
        case Some(m) => Some(10 * m + d)
  }

  function ParseInt(s: string): (r: Option<int>)
  {
    if |s| > 0 && s[0] == '-' then
      match ParseNat(s[1..])
      case None => None
      case Some(m) => if m == 0 then None else Some(0 - m)
    else ParseNat(s)
  }

  function ParseName(s: string): Option<int>
  {
    if |s| > 0 && s[0] == 'q' then ParseInt(s[1..]) else None
  }

  /** The position of the last comma, if any. */
  function LastComma(s: string): (r: Option<nat>)
    ensures r.Some? ==> r.value < |s| && s[r.value] == ','
  {
    if s == [] then None
    else if s[|s| - 1] == ',' then Some(|s| - 1)
    else LastComma(s[..|s| - 1])
  }

  /** The ids a cell names, in order; `None` when the text is not a cell. */
  function ParseCell(s: string): Option<seq<int>>
    decreases |s|
  {
    if s == [] then Some([])
    else
      match LastComma(s)
      case None =>
        (match ParseName(s)
         case None => None
         case Some(x) => Some([x]))
      case Some(p) =>
        if p == 0 then None
        else
          match ParseCell(s[..p])
          case None => None
          case Some(xs) =>
            match ParseName(s[p + 1..])
            case None => None
            case Some(x) => Some(xs + [x])
  }

  lemma {:induction false} NatToStringDigits(n: nat)
    ensures |NatToString(n)| > 0
    ensures forall i :: 0 <= i < |NatToString(n)| ==> IsDigit(NatToString(n)[i])
    decreases n
  {
    if n >= 10 {
      NatToStringDigits(n / 10);
    }
  }

  lemma {:induction false} ParseNatToString(n: nat)
    ensures ParseNat(NatToString(n)) == Some(n)
    decreases n
  {
    if n >= 10 {
      var s := NatToString(n);
      ParseNatToString(n / 10);
      NatToStringDigits(n / 10);
      assert s[..|s| - 1] == NatToString(n / 10);
    }
  }

  lemma ParseNameOf(x: int)
    ensures ParseName(Name(x)) == Some(x)
  {
    if x < 0 {
      ParseNegativeName(x);
    } else {
      ParseNatToString(x);
      NatToStringDigits(x);
      assert Name(x)[1..] == NatToString(x);
    }
  }

  /** A negative id is read back through its minus sign. */
  lemma ParseNegativeName(x: int)
    requires x < 0
    ensures ParseName(Name(x)) == Some(x)
  {
    var digits := NatToString(-x);
    ParseNatToString(-x);
    var t := "-" + digits;
    assert Name(x) == "q" + t;
    assert Name(x)[1..] == t;
    assert t[1..] == digits;
  }

  /** A name holds no comma. */
  lemma NameNoComma(x: int)
    ensures |Name(x)| > 1 && forall i :: 0 <= i < |Name(x)| ==> Name(x)[i] != ','
  {
    NatToStringDigits(if x < 0 then -x else x);
  }

  lemma {:induction false} LastCommaNone(s: string)
    requires forall i :: 0 <= i < |s| ==> s[i] != ','
    ensures LastComma(s) == None
    decreases |s|
  {
    if s != [] {
      LastCommaNone(s[..|s| - 1]);
    }
  }

  lemma {:induction false} LastCommaAfter(p: string, q: string)
    requires forall i :: 0 <= i < |q| ==> q[i] != ','
    ensures LastComma(p + "," + q) == Some(|p|)
    decreases |q|
  {
    var s := p + "," + q;
    if q != [] {
      assert s[..|s| - 1] == p + "," + q[..|q| - 1];
      LastCommaAfter(p, q[..|q| - 1]);
    }
  }

  lemma {:induction false} CellTextNonEmpty(ids: seq<int>)
    ensures CellText(ids) == "" <==> ids == []
  {
    if |ids| == 1 {
      NameNoComma(ids[0]);
    }
  }

  /** A cell is built by extending it one registration at a time. */
  lemma CellTextSnoc(ids: seq<int>, x: int)
    ensures CellText(ids + [x]) == Extend(CellText(ids), x)
  {
    CellTextNonEmpty(ids);
    var s := ids + [x];
    assert s[..|s| - 1] == ids;
    if ids == [] {
      assert s == [x];
    }
  }

  /** Reading a non-empty cell followed by one more name. */
  lemma ParseCellAppend(p: string, x: int)
    requires p != "" && ParseCell(p).Some?
    ensures ParseCell(p + "," + Name(x)) == Some(ParseCell(p).value + [x])
  {
    var s := p + "," + Name(x);
    NameNoComma(x);
    LastCommaAfter(p, Name(x));
    assert s[..|p|] == p;
    assert s[|p| + 1..] == Name(x);
    ParseNameOf(x);
  }

  /** A cell determines the ids it was written from, in order. */
  lemma {:induction false} ParseCellText(ids: seq<int>)
    ensures ParseCell(CellText(ids)) == Some(ids)
    decreases |ids|
  {
    if |ids| == 1 {
      assert CellText(ids) == Name(ids[0]);
      ParseSingleCell(ids[0]);
      assert [ids[0]] == ids;
    } else if |ids| > 1 {
      var init, last := ids[..|ids| - 1], ids[|ids| - 1];
      assert init + [last] == ids;
      assert CellText(ids) == CellText(init) + "," + Name(last);
      CellTextNonEmpty(init);
      ParseCellText(init);
      ParseCellAppend(CellText(init), last);
    }
  }

  /** A cell naming one id is read back as that id. */
  lemma ParseSingleCell(x: int)
    ensures ParseCell(Name(x)) == Some([x])
  {
    NameNoComma(x);
    LastCommaNone(Name(x));
    ParseNameOf(x);
  }

  // ---------------------------------------------------------------------------
  // Looking cells up.

  /** The row of a label (the dictionary lookup `transitionsList[symbol]`). */
  function RowIndex(table: seq<Row>, symbol: char): (r: Option<nat>)
    ensures r.Some? ==> r.value < |table| && table[r.value].symbol == symbol
    ensures r.None? ==> forall i :: 0 <= i < |table| ==> table[i].symbol != symbol
  {
    if table == [] then None
    else if table[0].symbol == symbol then Some(0)
    else
      match RowIndex(table[1..], symbol)
      case None => None
      case Some(i) => Some(i + 1)
  }

  /** The cell of a label and an id; a label without a row reads as empty cells. */
  function CellAt(table: seq<Row>, symbol: char, k: nat): string
  {
    match RowIndex(table, symbol)
    case None => ""
    case Some(r) => if k < |table[r].cells| then table[r].cells[k] else ""
  }

  /** The labels of the rows, in row order: the order in which the rows were created. */
  function RowLabels(table: seq<Row>): (r: seq<char>)
    ensures |r| == |table| && forall i :: 0 <= i < |table| ==> r[i] == table[i].symbol
  {
    seq(|table|, i requires 0 <= i < |table| => table[i].symbol)
  }

  /** A label is looked up in vain exactly when no row carries it. */
  lemma RowIndexLabels(table: seq<Row>, symbol: char)
    ensures RowIndex(table, symbol).None? <==> symbol !in RowLabels(table)
  {
    if symbol in RowLabels(table) {
      var i :| 0 <= i < |table| && RowLabels(table)[i] == symbol;
    }
  }

  /** Every row has n cells and no label has two rows. */
  ghost predicate Shaped(table: seq<Row>, n: nat)
  {
    (forall i :: 0 <= i < |table| ==> |table[i].cells| == n) &&
    (forall i, j :: 0 <= i < j < |table| ==> table[i].symbol != table[j].symbol)
  }

  /** A shaped table has no cells beyond its width. */
  lemma UnshapedCell(table: seq<Row>, n: nat, l: char, k: nat)
    requires Shaped(table, n) && n <= k
    ensures CellAt(table, l, k) == ""
  {
  }

  lemma {:induction false} RowIndexOf(table: seq<Row>, i: nat)
    requires i < |table|
    requires forall p, q :: 0 <= p < q < |table| ==> table[p].symbol != table[q].symbol
    ensures RowIndex(table, table[i].symbol) == Some(i)
  {
    if i > 0 {
      RowIndexOf(table[1..], i - 1);
    }
  }

  /** Writing one cell changes that cell only. */
  lemma SetCellAt(table: seq<Row>, n: nat, r: nat, k: nat, c: string)
    requires Shaped(table, n) && r < |table| && k < n
    ensures var t := table[r := table[r].(cells := table[r].cells[k := c])];
      Shaped(t, n) &&
      forall l, k' :: CellAt(t, l, k') == if l == table[r].symbol && k' == k then c else CellAt(table, l, k')
  {
    var t := table[r := table[r].(cells := table[r].cells[k := c])];
    forall l, k'
      ensures CellAt(t, l, k') == if l == table[r].symbol && k' == k then c else CellAt(table, l, k')
    {
      match RowIndex(table, l)
      case None =>
        assert forall i :: 0 <= i < |t| ==> t[i].symbol != l;
      case Some(i) =>
        RowIndexOf(t, i);
    }
  }

  /** A row of n empty cells for a new label reads as empty everywhere. */
  lemma AppendRowAt(table: seq<Row>, n: nat, symbol: char)
    requires Shaped(table, n) && RowIndex(table, symbol) == None
    ensures var t := table + [Row(symbol, seq(n, _ => ""))];
      Shaped(t, n) && RowIndex(t, symbol) == Some(|table|) &&
      forall l, k :: CellAt(t, l, k) == CellAt(table, l, k)
  {
    var t := table + [Row(symbol, seq(n, _ => ""))];
    RowIndexOf(t, |table|);
    forall l, k
      ensures CellAt(t, l, k) == CellAt(table, l, k)
    {
      match RowIndex(table, l)
      case None =>
        if l != symbol {
          assert forall i :: 0 <= i < |t| ==> t[i].symbol != l;
        }
      case Some(i) =>
        RowIndexOf(t, i);
    }
  }
}

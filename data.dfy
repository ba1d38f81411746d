/** `load_groups` of `common/data.py`: the rows of the group CSV file (already split
    into cells) become group records. Reading the file is left to the caller. */
module Data {
  import opened Wrappers
  import opened Strings
  import opened GroupModels

  /** A digit string in Python literal style: digits, with single underscores
      allowed between two digits. */
  predicate ValidDigits(body: string)
  {
    && |body| > 0 && IsDigit(body[0]) && IsDigit(body[|body| - 1])
    && (forall i :: 0 <= i < |body| ==> IsDigit(body[i]) || body[i] == '_')
    && (forall i :: 0 <= i < |body| - 1 ==> !(body[i] == '_' && body[i + 1] == '_'))
  }

  function DropUnderscores(s: string): (r: string)
    ensures (forall i :: 0 <= i < |s| ==> IsDigit(s[i]) || s[i] == '_') ==>
      forall i :: 0 <= i < |r| ==> IsDigit(r[i])
    ensures (forall i :: 0 <= i < |s| ==> IsDigit(s[i])) ==> r == s
    decreases |s|
  {
    if s == [] then []
    else (if s[0] == '_' then [] else [s[0]]) + DropUnderscores(s[1..])
  }

  /** Python's `int(text)` in base 10 on ASCII input: surrounding whitespace is
      ignored, and the rest must be an integer literal; anything else raises
      `ValueError` (`None` here). */
  function ParseInt(text: string): (r: Option<int>)
    ensures (forall i :: 0 <= i < |text| ==> IsSpace(text[i])) ==> r.None?
    ensures text != [] && (forall i :: 0 <= i < |text| ==> IsDigit(text[i])) ==> r == Some(DigitsValue(text))
  {
    ParseBlank(text);
    ParseDigits(text);
    ParseLiteral(Strip(text))
  }

  lemma ParseBlank(text: string)
    ensures (forall i :: 0 <= i < |text| ==> IsSpace(text[i])) ==> ParseLiteral(Strip(text)).None?
  {
    if forall i :: 0 <= i < |text| ==> IsSpace(text[i]) {
      StripBlank(text);
    }
  }

  lemma ParseDigits(text: string)
    ensures text != [] && (forall i :: 0 <= i < |text| ==> IsDigit(text[i])) ==>
      ParseLiteral(Strip(text)) == Some(DigitsValue(text))
  {
    if text != [] && (forall i :: 0 <= i < |text| ==> IsDigit(text[i])) {
      DigitStringValid(text);
    }
  }

  /** An integer literal without surrounding whitespace: an optional sign, then
      digits. */
  function ParseLiteral(t: string): (r: Option<int>)
    ensures r.Some? ==> t != []
    ensures r.Some? && t[0] == '-' ==> r.value <= 0
    ensures r.Some? && t[0] != '-' ==> r.value >= 0
  {
    if |t| > 0 && (t[0] == '-' || t[0] == '+') then
      var body := t[1..];
      if ValidDigits(body) then
        var v: int := DigitsValue(DropUnderscores(body));
        Some(if t[0] == '-' then -v else v)
      else None
    else if ValidDigits(t) then Some(DigitsValue(DropUnderscores(t)))
    else None
  }

  /** A non-empty digit string passes the literal check unchanged. */
  lemma DigitStringValid(s: string)
    requires s != [] && forall i :: 0 <= i < |s| ==> IsDigit(s[i])
    ensures ValidDigits(s) && DropUnderscores(s) == s && Strip(s) == s
  {
    PrintableNotSpace(s[0]);
    PrintableNotSpace(s[|s| - 1]);
    StripKeeps(s);
  }

  lemma NatRoundTrip(m: nat)
    ensures ParseInt(NatToString(m)) == Some(m)
  {
    var s := NatToString(m);
    DigitStringValid(s);
    DigitsOfNat(m);
    assert !(s[0] == '-' || s[0] == '+');
  }

  /** A minus sign before a digit string of value `v` parses as `-v`. */
  lemma ParseNegative(digits: string, v: nat)
    requires digits != [] && forall i :: 0 <= i < |digits| ==> IsDigit(digits[i])
    requires DigitsValue(digits) == v
    ensures ParseInt("-" + digits) == Some(-(v as int))
  {
    var s := "-" + digits;
    SignedUnstripped(digits);
    DigitStringValid(digits);
    assert s[1..] == digits;
    NegativeParse(s, digits, v);
  }

  /** The parse of a minus sign before digits, stated on an abstract text. */
  lemma NegativeParse(s: string, digits: string, v: nat)
    requires Strip(s) == s && |s| > 0 && s[0] == '-' && s[1..] == digits
    requires ValidDigits(digits) && DropUnderscores(digits) == digits && DigitsValue(digits) == v
    ensures ParseInt(s) == Some(-(v as int))
  {
    ParseOfStripped(s);
    NegativeLiteral(s);
  }

  /** Text without surrounding whitespace is parsed as a literal directly. */
  lemma ParseOfStripped(s: string)
    requires Strip(s) == s
    ensures ParseInt(s) == ParseLiteral(s)
  {
  }

  /** A minus sign before valid digits gives the negated value. */
  lemma NegativeLiteral(t: string)
    requires |t| > 0 && t[0] == '-' && ValidDigits(t[1..])
    ensures ParseLiteral(t) == Some(-(DigitsValue(DropUnderscores(t[1..])) as int))
  {
  }

  lemma NegativeRoundTrip(m: nat)
    ensures ParseInt("-" + NatToString(m)) == Some(-(m as int))
  {
    DigitsOfNat(m);
    ParseNegative(NatToString(m), m);
  }

  /** A minus sign followed by digits has no surrounding whitespace. */
  lemma SignedUnstripped(digits: string)
    requires digits != [] && forall i :: 0 <= i < |digits| ==> IsDigit(digits[i])
    ensures Strip("-" + digits) == "-" + digits
  {
    var s := "-" + digits;
    assert s[|s| - 1] == digits[|digits| - 1];
    PrintableNotSpace(s[0]);
    PrintableNotSpace(s[|s| - 1]);
    StripKeeps(s);
  }

  /** Parsing the decimal rendering of a number gives the number back. */
  lemma IntRoundTrip(n: int)
    ensures ParseInt(IntToString(n)) == Some(n)
  {
    if n < 0 {
      var m: nat := -n;
      assert IntToString(n) == "-" + NatToString(m);
      NegativeRoundTrip(m);
    } else {
      assert IntToString(n) == NatToString(n);
      NatRoundTrip(n);
    }
  }

  /** An empty student cell is no student; any other cell is kept verbatim. */
  function StudentCell(cell: string): (r: Option<string>)
    ensures r.None? <==> cell == ""
    ensures r.Some? ==> r.value == cell
  {
    if cell != "" then Some(cell) else None
  }

  /** One data row as a group record, or the exception raised while building
      it: the cells are read in the order 0, 1, ..., 6. */
  function RowToGroup(row: seq<string>): (r: Result<GroupRecord>)
    ensures r.Ok? <==> |row| >= 7 && ParseInt(row[0]).Some?
    ensures r.Ok? ==>
      && r.value.groupNumber == ParseInt(row[0]).value
      && r.value.repoUrl == row[6]
      && forall i :: 0 <= i < 5 ==> Students(r.value)[i] == StudentCell(row[i + 1])
  {
    if |row| == 0 then Err("IndexError")
    else
      var number := ParseInt(row[0]);
      if number.None? then Err("ValueError")
      else if |row| < 7 then Err("IndexError")
      else Ok(GroupRecord(number.value,
                          StudentCell(row[1]), StudentCell(row[2]), StudentCell(row[3]),
                          StudentCell(row[4]), StudentCell(row[5]), row[6]))
  }

  /** A row that is too short raises `IndexError`, a group number that is not
      an integer raises `ValueError`; the number is read first. */
  lemma RowToGroupError(row: seq<string>)
    ensures RowToGroup(row).Err? ==>
      RowToGroup(row).error == (if |row| == 0 || (ParseInt(row[0]).Some? && |row| < 7) then "IndexError" else "ValueError")
  {
  }

  function CountNonEmpty(cells: seq<string>): nat
    decreases |cells|
  {
    if cells == [] then 0
    else CountNonEmpty(cells[..|cells| - 1]) + (if cells[|cells| - 1] != "" then 1 else 0)
  }

  lemma {:induction false} CellsTruthy(cells: seq<string>)
    ensures CountTruthy(seq(|cells|, i requires 0 <= i < |cells| => StudentCell(cells[i]))) == CountNonEmpty(cells)
    decreases |cells|
  {
    if cells != [] {
      var n := |cells| - 1;
      var mapped := seq(|cells|, i requires 0 <= i < |cells| => StudentCell(cells[i]));
      CellsTruthy(cells[..n]);
      assert mapped[..n] == seq(n, i requires 0 <= i < n => StudentCell(cells[..n][i]));
    }
  }

  /** The size of a loaded group is the number of non-empty student cells
      of its row. */
  lemma LoadedGroupSize(row: seq<string>)
    requires RowToGroup(row).Ok?
    ensures GroupSize(RowToGroup(row).value) == CountNonEmpty(row[1..6])
  {
    var cells := row[1..6];
    CellsTruthy(cells);
    var g := RowToGroup(row).value;
    assert Students(g) == seq(|cells|, i requires 0 <= i < |cells| => StudentCell(cells[i]));
  }

  /** Every data row before row `k` can be converted. */
  ghost predicate ConvertsBefore(rows: seq<seq<string>>, k: int)
  {
    forall j :: 1 <= j < k && j < |rows| ==> RowToGroup(rows[j]).Ok?
  }

  /** Row `k` is the first data row that cannot be converted, and raises `error`. */
  ghost predicate FirstFailure(rows: seq<seq<string>>, k: int, error: string)
  {
    1 <= k < |rows| && RowToGroup(rows[k]) == Err(error) && ConvertsBefore(rows, k)
  }

  lemma ConvertsThrough(rows: seq<seq<string>>, k: int)
    requires 1 <= k < |rows| && ConvertsBefore(rows, k) && RowToGroup(rows[k]).Ok?
    ensures ConvertsBefore(rows, k + 1)
  {
  }

  /** `load_groups`: skips the header row and turns every other row into a
      record, in row order. The first row that cannot be converted raises, and
      its exception is the result. */
  method LoadGroups(rows: seq<seq<string>>) returns (r: Result<seq<GroupRecord>>)
    ensures r.Ok? <==> forall i :: 1 <= i < |rows| ==> RowToGroup(rows[i]).Ok?
    ensures r.Ok? ==> |r.value| == (if |rows| == 0 then 0 else |rows| - 1)
    ensures r.Ok? ==> forall i :: 0 <= i < |r.value| ==> RowToGroup(rows[i + 1]) == Ok(r.value[i])
    ensures r.Err? ==> exists k :: FirstFailure(rows, k, r.error)
  {
    var content: seq<GroupRecord> := [];
    var i := 0;
    while i < |rows|
      invariant 0 <= i <= |rows|
      invariant |content| == (if i == 0 then 0 else i - 1)
      invariant ConvertsBefore(rows, i)
      invariant forall j :: 0 <= j < |content| ==> RowToGroup(rows[j + 1]) == Ok(content[j])
    {
      if i == 0 {
        i := i + 1;
        continue;
      }
      var group := RowToGroup(rows[i]);
      if group.Err? {
        assert FirstFailure(rows, i, group.error);
        return Err(group.error);
      }
      ConvertsThrough(rows, i);
      content := content + [group.value];
      i := i + 1;
    }
    r := Ok(content);
  }
}

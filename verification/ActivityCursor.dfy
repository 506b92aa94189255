/** The text form of a feed cursor: page number, colon, snapshot time in milliseconds. */
module ActivityCursor {
  import opened Wrappers
  import opened Decimals

  datatype Cursor = Cursor(page: int, snapshotAt: int)

  const MAX_SAFE_INTEGER := 0x1F_FFFF_FFFF_FFFF
  const MAX_DATE := 8_640_000_000_000_000

  // ---------- The cursor ----------

  function EncodeActivityCursor(cursor: Cursor): string {
    Signed(cursor.page) + ":" + Signed(cursor.snapshotAt)
  }

  function ColonIndex(s: string): (i: nat)
    ensures i <= |s|
  {
    if s == "" || s[0] == ':' then 0 else 1 + ColonIndex(s[1..])
  }

  /** Digits, a colon, digits; the page counts from 1 and both numbers are in range. */
  function ParseActivityCursor(value: string): Option<Cursor> {
    var i := ColonIndex(value);
    if i == |value| then None
    else
      var left, right := value[..i], value[i + 1..];
      if !AllDigits(left) || !AllDigits(right) then None
      else
        var page, timestamp := Number(left), Number(right);
        if page > MAX_SAFE_INTEGER || page < 1 || timestamp > MAX_SAFE_INTEGER || timestamp > MAX_DATE then None
        else Some(Cursor(page, timestamp))
  }

  predicate InRange(cursor: Cursor) {
    1 <= cursor.page <= MAX_SAFE_INTEGER && 0 <= cursor.snapshotAt <= MAX_DATE
  }

  lemma {:induction false} ColonIndexAfter(left: string, right: string)
    requires ':' !in left
    ensures ColonIndex(left + ":" + right) == |left|
  {
    var s := left + ":" + right;
    if left != "" {
      assert s[1..] == left[1..] + ":" + right;
      ColonIndexAfter(left[1..], right);
    }
  }

  lemma SignedDigits(n: int)
    ensures AllDigits(Signed(n)) <==> n >= 0
    ensures n >= 0 ==> Number(Signed(n)) == n
    ensures ':' !in Signed(n)
  {
    NumberOfDecimal(if n < 0 then -n else n);
    assert n < 0 ==> Signed(n)[0] == '-';
  }

  /** Parsing undoes encoding for exactly the cursors in range; any other cursor's text is refused. */
  lemma ParseUndoesEncode(cursor: Cursor)
    ensures ParseActivityCursor(EncodeActivityCursor(cursor)) == if InRange(cursor) then Some(cursor) else None
  {
    var left, right := Signed(cursor.page), Signed(cursor.snapshotAt);
    SignedDigits(cursor.page);
    SignedDigits(cursor.snapshotAt);
    ColonIndexAfter(left, right);
    var value := left + ":" + right;
    assert value[..|left|] == left && value[|left| + 1..] == right;
  }

  /** An accepted text is the encoding of its cursor, up to leading zeros. */
  lemma EncodeUndoesParse(value: string)
    requires ParseActivityCursor(value).Some?
    ensures var i := ColonIndex(value);
            var cursor := ParseActivityCursor(value).value;
            && i < |value| && InRange(cursor)
            && EncodeActivityCursor(cursor) == DropLeadingZeros(value[..i]) + ":" + DropLeadingZeros(value[i + 1..])
  {
    hide Number, DropLeadingZeros, ColonIndex, Decimal;
    var i := ColonIndex(value);
    DropLeadingZerosKeepsNumber(value[..i]);
    DropLeadingZerosKeepsNumber(value[i + 1..]);
    DecimalOfNumber(DropLeadingZeros(value[..i]));
    DecimalOfNumber(DropLeadingZeros(value[i + 1..]));
  }
}

/**
 The items table and the `/inventory` and `/export` endpoints that read and
 write it. The table maps each rowid to its name, cost and quantity; each
 handler is a method of `Store` that runs its check chain and then issues at
 most one statement against the table.
 */
module Inventory {
  import opened Json
  import opened Validation

  type Table = map<int, Item>

  /** The JSON bodies the handlers send. */
  datatype Body =
    | Failure(error: string)        // {"error": ...}
    | Success                       // {"success": true}
    | SuccessWithId(id: int)        // {"success": true, "id": ...}
    | Items(rows: seq<Row>)         // the rows of GET /inventory
    | Csv(doc: CsvDoc)              // the document of GET /export

  datatype Response = Response(status: int, body: Body)

  function ErrorResponse(status: int, message: string): Response {
    Response(status, Failure(message))
  }

  // ---------------------------------------------------------------------------
  // Which row a statement's `WHERE rowid = ?` reaches

  /** The characters SQLite skips around a number written as text. */
  predicate IsSqlSpace(c: char) {
    c == ' ' || c == '\t' || c == '\n' || c == '\U{B}' || c == '\U{C}' || c == '\r'
  }

  /** `s` without white space at either end. */
  function TrimSql(s: string): (r: string)
    ensures |r| <= |s|
    ensures r != [] ==> !IsSqlSpace(r[0]) && !IsSqlSpace(r[|r| - 1])
    decreases |s|
  {
    if s != [] && IsSqlSpace(s[0]) then TrimSql(s[1..])
    else if s != [] && IsSqlSpace(s[|s| - 1]) then TrimSql(s[..|s| - 1])
    else s
  }

  /** `m` * 10^`n`. */
  function Shift(m: nat, n: nat): nat {
    if n == 0 then m else 10 * Shift(m, n - 1)
  }

  /** `m` / 10^`n` when that division leaves no remainder. */
  function Unshift(m: nat, n: nat): Option<nat> {
    if n == 0 then Some(m)
    else if m % 10 != 0 then None
    else Unshift(m / 10, n - 1)
  }

  /** The number `mantissa` * 10^`scale` when it is whole, `None` when it has
      a fractional part. */
  function WholeValue(mantissa: nat, scale: int): Option<int> {
    if scale >= 0 then Some(Shift(mantissa, scale))
    else match Unshift(mantissa, -scale)
      case None => None
      case Some(m) => Some(m)
  }

  /** The exponent part of a numeric literal: nothing at all, or "e" or "E", an
      optional sign and at least one digit, up to the end of the text. */
  function ExponentOf(s: string): Option<int> {
    if s == [] then Some(0)
    else if s[0] != 'e' && s[0] != 'E' then None
    else
      var u := s[1..];
      var digits := if u != [] && (u[0] == '-' || u[0] == '+') then u[1..] else u;
      if digits != [] && AllDigits(digits, 10) then
        Some(if u[0] == '-' then -(DigitsValue(digits, 10) as int) else DigitsValue(digits, 10))
      else None
  }

  /** The whole number written by the digits `whole` "." `frac` followed by the
      exponent part `rest`, if `rest` is one and the number is whole. */
  function ScaledValue(whole: string, frac: string, rest: string): Option<int>
    requires AllDigits(whole, 10) && AllDigits(frac, 10)
  {
    if whole == [] && frac == [] then None
    else match ExponentOf(rest)
      case None => None
      case Some(e) => WholeValue(Shift(DigitsValue(whole, 10), |frac|) + DigitsValue(frac, 10), e - |frac|)
  }

  /** An unsigned numeric literal: digits, an optional "." and fraction, and an
      optional exponent, and nothing after them. */
  function UnsignedValue(b: string): Option<int> {
    var whole := DigitPrefix(b, 10);
    var rest := b[|whole|..];
    if rest != [] && rest[0] == '.' then
      var frac := DigitPrefix(rest[1..], 10);
      ScaledValue(whole, frac, rest[1 + |frac|..])
    else ScaledValue(whole, [], rest)
  }

  /** How SQLite reads a bound text compared with a rowid: under NUMERIC
      affinity the text becomes a number when, apart from white space at either
      end, it is an optional sign and an unsigned numeric literal with at least
      one digit. The number reaches a rowid only when it is whole; any other
      text stays text and equals no rowid. */
  function SqlTextKey(s: string): Option<int> {
    var t := TrimSql(s);
    if t != [] && t[0] == '-' then Negate(UnsignedValue(t[1..]))
    else if t != [] && t[0] == '+' then UnsignedValue(t[1..])
    else UnsignedValue(t)
  }

  lemma {:induction false} UnshiftShift(m: nat, n: nat)
    ensures Unshift(Shift(m, n), n) == Some(m)
    decreases n
  {
    if n > 0 {
      UnshiftShift(m, n - 1);
    }
  }

  lemma UnshiftRemainder(m: nat, v: nat, n: nat)
    requires n > 0 && v % 10 != 0
    ensures Unshift(Shift(m, n) + v, n) == None
  {
    assert Shift(m, n) == 10 * Shift(m, n - 1);
  }

  lemma {:induction false} ShiftGrows(m: nat, n: nat)
    requires m > 0 && n > 0
    ensures Shift(m, n) > m
    decreases n
  {
    if n > 1 {
      ShiftGrows(m, n - 1);
    }
  }

  /** Text that neither starts nor ends with white space is not trimmed. */
  lemma TrimSqlUntouched(s: string)
    requires s != [] && !IsSqlSpace(s[0]) && !IsSqlSpace(s[|s| - 1])
    ensures TrimSql(s) == s
  {
  }

  /** Text that starts with a digit and does not end with white space is read
      as an unsigned literal. */
  lemma SqlTextKeyUnsigned(s: string)
    requires s != [] && DigitValue(s[0]) < 10 && !IsSqlSpace(s[|s| - 1])
    ensures SqlTextKey(s) == UnsignedValue(s)
  {
    TrimSqlUntouched(s);
  }

  /** Digits, a point and digits: the digits read as one whole number, scaled
      down by the length of the fraction. */
  lemma SqlTextKeyOfDecimal(d: string, f: string, v: Option<int>)
    requires d != [] && AllDigits(d, 10) && AllDigits(f, 10)
    requires v == WholeValue(Shift(DigitsValue(d, 10), |f|) + DigitsValue(f, 10), -|f|)
    ensures SqlTextKey(d + ("." + f)) == v
  {
    var t := "." + f;
    var s := d + t;
    assert s[0] == d[0] && DigitValue(d[0]) < 10;
    if f == [] {
      assert s[|s| - 1] == '.';
    } else {
      assert s[|s| - 1] == f[|f| - 1] && DigitValue(f[|f| - 1]) < 10;
    }
    SqlTextKeyUnsigned(s);
    UnsignedOfDecimal(d, f);
    assert SqlTextKey(s) == ScaledValue(d, f, []);
    ScaledWithoutExponent(d, f);
  }

  lemma ScaledWithoutExponent(d: string, f: string)
    requires d != [] && AllDigits(d, 10) && AllDigits(f, 10)
    ensures ScaledValue(d, f, []) == WholeValue(Shift(DigitsValue(d, 10), |f|) + DigitsValue(f, 10), -|f|)
  {
  }

  lemma UnsignedOfDecimal(d: string, f: string)
    requires d != [] && AllDigits(d, 10) && AllDigits(f, 10)
    ensures UnsignedValue(d + ("." + f)) == ScaledValue(d, f, [])
  {
    var t := "." + f;
    var s := d + t;
    DigitPrefixOfNumeral(d, t, 10);
    assert s[|d|..] == t && t[1..] == f;
    DigitPrefixOfNumeral(f, "", 10);
    assert f + "" == f;
    assert t[1 + |f|..] == [];
  }

  /** A fraction whose digits are all zeros leaves a whole number whole. */
  lemma WholeOfZeroFraction(d: string, f: string)
    requires AllDigits(d, 10) && AllDigits(f, 10) && DigitsValue(f, 10) == 0
    ensures Some(DigitsValue(d, 10)) == WholeValue(Shift(DigitsValue(d, 10), |f|) + DigitsValue(f, 10), -|f|)
  {
    UnshiftShift(DigitsValue(d, 10), |f|);
  }

  /** A fraction that ends in a non-zero digit leaves a fractional part. */
  lemma NoWholeOfFraction(m: nat, f: string)
    requires f != [] && AllDigits(f, 10) && f[|f| - 1] != '0'
    ensures WholeValue(Shift(m, |f|) + DigitsValue(f, 10), -|f|) == None
  {
    assert DigitValue(f[|f| - 1]) < 10;
    assert DigitsValue(f, 10) % 10 == DigitValue(f[|f| - 1]) != 0;
    UnshiftRemainder(m, DigitsValue(f, 10), |f|);
  }

  /** A whole number written with a fraction of zeros ("3.0", "3.00", "3.")
      reaches the rowid of its whole part. */
  lemma SqlTextKeyOfWholeFraction(d: string, f: string)
    requires d != [] && AllDigits(d, 10)
    requires AllDigits(f, 10) && DigitsValue(f, 10) == 0
    ensures SqlTextKey(d + ("." + f)) == Some(DigitsValue(d, 10))
  {
    WholeOfZeroFraction(d, f);
    SqlTextKeyOfDecimal(d, f, Some(DigitsValue(d, 10)));
  }

  /** A number whose fraction ends in a non-zero digit ("3.5") reaches no
      rowid. */
  lemma SqlTextKeyOfFraction(d: string, f: string)
    requires d != [] && AllDigits(d, 10)
    requires f != [] && AllDigits(f, 10) && f[|f| - 1] != '0'
    ensures SqlTextKey(d + ("." + f)) == None
  {
    var m := DigitsValue(d, 10);
    NoWholeOfFraction(m, f);
    var v := WholeValue(Shift(m, |f|) + DigitsValue(f, 10), -|f|);
    SqlTextKeyOfDecimal(d, f, v);
  }

  lemma UnsignedOfExponent(d: string, e: string)
    requires d != [] && AllDigits(d, 10) && e != [] && AllDigits(e, 10)
    ensures UnsignedValue(d + ("e" + e)) == ScaledValue(d, [], "e" + e)
  {
    var t := "e" + e;
    var s := d + t;
    DigitPrefixOfNumeral(d, t, 10);
    assert s[|d|..] == t;
  }

  lemma ScaledOfExponent(d: string, e: string)
    requires d != [] && AllDigits(d, 10) && e != [] && AllDigits(e, 10)
    ensures ScaledValue(d, [], "e" + e) == Some(Shift(DigitsValue(d, 10), DigitsValue(e, 10)))
  {
    var t := "e" + e;
    assert t[1..] == e && DigitValue(e[0]) < 10;
    assert ExponentOf(t) == Some(DigitsValue(e, 10));
  }

  /** Digits followed by an exponent ("1e1") are read scaled by it. */
  lemma SqlTextKeyOfExponent(d: string, e: string)
    requires d != [] && AllDigits(d, 10) && e != [] && AllDigits(e, 10)
    ensures SqlTextKey(d + ("e" + e)) == Some(Shift(DigitsValue(d, 10), DigitsValue(e, 10)))
  {
    var s := d + ("e" + e);
    assert s[0] == d[0] && DigitValue(d[0]) < 10;
    assert s[|s| - 1] == e[|e| - 1] && DigitValue(e[|e| - 1]) < 10;
    SqlTextKeyUnsigned(s);
    UnsignedOfExponent(d, e);
    ScaledOfExponent(d, e);
  }

  /** Digits followed by text that cannot continue a number ("3abc") are no
      number for SQLite. */
  lemma SqlTextKeyOfTrailingText(d: string, tail: string)
    requires d != [] && AllDigits(d, 10)
    requires tail != [] && DigitValue(tail[0]) >= 10 && tail[0] != '.' && tail[0] != 'e' && tail[0] != 'E'
    requires !IsSqlSpace(tail[|tail| - 1])
    ensures SqlTextKey(d + tail) == None
  {
    var s := d + tail;
    assert s[0] == d[0] && DigitValue(d[0]) < 10;
    assert s[|s| - 1] == tail[|tail| - 1];
    TrimSqlUntouched(s);
    DigitPrefixOfNumeral(d, tail, 10);
    assert s[|d|..] == tail;
    assert UnsignedValue(s) == ScaledValue(d, [], tail);
  }

  /** Hex text ("0x10") is no number for SQLite. */
  lemma SqlTextKeyOfHex(h: string)
    requires h != [] && AllDigits(h, 16)
    ensures SqlTextKey("0x" + h) == None
  {
    assert "0" + ("x" + h) == "0x" + h;
    assert DigitValue(h[|h| - 1]) < 16;
    SqlTextKeyOfTrailingText("0", "x" + h);
  }

  /** A plus sign in front changes nothing. */
  lemma SqlTextKeyOfPlus(d: string)
    requires d != [] && AllDigits(d, 10)
    ensures SqlTextKey("+" + d) == Some(DigitsValue(d, 10))
  {
    var s := "+" + d;
    assert DigitValue(d[|d| - 1]) < 10 && s[|s| - 1] == d[|d| - 1];
    assert TrimSql(s) == s && s[1..] == d;
    assert DigitValue(d[0]) < 10;
    assert TrimSql(d) == d;
    SqlTextKeyOfDigits(d);
  }

  /** The rowid the bound id is compared as. The handlers bind the id exactly
      as the client sent it: an integer as itself, a boolean as 1 or 0, null as
      NULL, a fractional number as a real that equals no rowid, and a string,
      array or object as the text `String(id)`, which SQLite reads as above. */
  function BoundKey(id: JsonValue): Option<int> {
    match id
    case Null => None
    case Bool(b) => Some(if b then 1 else 0)
    case Int(i) => Some(i)
    case Frac(_) => None
    case _ => SqlTextKey(ToJsString(id))
  }

  /** Plain decimal digits are read as the number they write. */
  lemma SqlTextKeyOfDigits(s: string)
    requires s != [] && AllDigits(s, 10)
    ensures SqlTextKey(s) == Some(DigitsValue(s, 10))
  {
    assert DigitValue(s[0]) < 10 && DigitValue(s[|s| - 1]) < 10;
    SqlTextKeyUnsigned(s);
    UnsignedOfDigits(s);
    ScaledOfDigits(s);
  }

  lemma UnsignedOfDigits(s: string)
    requires AllDigits(s, 10)
    ensures UnsignedValue(s) == ScaledValue(s, [], [])
  {
    DigitPrefixOfNumeral(s, "", 10);
    assert s + "" == s;
    assert s[|s|..] == [];
  }

  lemma ScaledOfDigits(s: string)
    requires s != [] && AllDigits(s, 10)
    ensures ScaledValue(s, [], []) == Some(DigitsValue(s, 10))
  {
  }

  /** For an integer id, and for a text id made only of decimal digits, the
      rowid the statement compares with is the number the id check read, so the
      id passed the check exactly when that rowid is positive. */
  lemma BoundKeyAgreesWithCheck(id: JsonValue)
    requires id.Int? || (id.Str? && id.s != [] && AllDigits(id.s, 10))
    ensures BoundKey(id).Some?
    ensures ParseInt(ToJsString(id)) == BoundKey(id)
    ensures IdAccepted(id) <==> BoundKey(id).value > 0
  {
    match id
    case Int(i) => IntKeyAgrees(i);
    case Str(s) => DigitTextKeyAgrees(s);
  }

  lemma IntKeyAgrees(i: int)
    ensures ParseInt(ToJsString(Int(i))) == Some(i) == BoundKey(Int(i))
  {
    ParseIntOfDecimalString(if i < 0 then -i else i);
  }

  lemma DigitTextKeyAgrees(s: string)
    requires s != [] && AllDigits(s, 10)
    ensures ParseInt(ToJsString(Str(s))) == Some(DigitsValue(s, 10)) == BoundKey(Str(s))
  {
    SqlTextKeyOfDigits(s);
    ParseIntOfDigits(s);
  }

  /** An id can pass the check and still reach no row: digits followed by
      other text ("3abc") are read as their digits by parseInt, but are no
      number for SQLite. */
  lemma CheckedIdMayReachNoRow(d: string, tail: string)
    requires NumeralThenStop(d, tail) && DigitsValue(d, 10) > 0
    requires tail != [] && tail[0] != '.' && tail[0] != 'e' && tail[0] != 'E'
    requires !IsSqlSpace(tail[|tail| - 1])
    ensures IdAccepted(Str(d + tail)) && BoundKey(Str(d + tail)) == None
  {
    TextIdAccepted(d, tail);
    SqlTextKeyOfTrailingText(d, tail);
  }

  /** A number with a fraction ("3.5") passes the check as its whole part,
      but SQLite reads it as a real that is no rowid. */
  lemma CheckedFractionReachesNoRow(d: string, f: string)
    requires d != [] && AllDigits(d, 10) && DigitsValue(d, 10) > 0
    requires f != [] && AllDigits(f, 10) && f[|f| - 1] != '0'
    ensures ParseInt(d + ("." + f)) == Some(DigitsValue(d, 10)) && IdAccepted(Str(d + ("." + f)))
    ensures BoundKey(Str(d + ("." + f))) == None
  {
    ParseIntOfNumeral(d, "." + f);
    TextIdAccepted(d, "." + f);
    SqlTextKeyOfFraction(d, f);
  }

  /** Hex text ("0x10") passes the check as the number it writes in base 16,
      but SQLite does not read hex text as a number, so it reaches no row. */
  lemma CheckedHexIdReachesNoRow(h: string)
    requires h != [] && AllDigits(h, 16) && DigitsValue(h, 16) > 0
    ensures ParseInt("0x" + h) == Some(DigitsValue(h, 16)) && IdAccepted(Str("0x" + h))
    ensures BoundKey(Str("0x" + h)) == None
  {
    ParseIntOfHex(h);
    SqlTextKeyOfHex(h);
  }

  /** An id can pass the check as one number and reach the row of another:
      parseInt reads "1e1" as 1, while SQLite reads it as 10. */
  lemma CheckedIdMayReachOtherRow(d: string, e: string)
    requires d != [] && AllDigits(d, 10) && DigitsValue(d, 10) > 0
    requires e != [] && AllDigits(e, 10) && DigitsValue(e, 10) > 0
    ensures ParseInt(d + ("e" + e)) == Some(DigitsValue(d, 10)) && IdAccepted(Str(d + ("e" + e)))
    ensures BoundKey(Str(d + ("e" + e))) == Some(Shift(DigitsValue(d, 10), DigitsValue(e, 10)))
    ensures BoundKey(Str(d + ("e" + e))).value > DigitsValue(d, 10)
  {
    ParseIntOfNumeral(d, "e" + e);
    TextIdAccepted(d, "e" + e);
    SqlTextKeyOfExponent(d, e);
    ShiftGrows(DigitsValue(d, 10), DigitsValue(e, 10));
  }

  /** The existing row a statement reaches, if any. */
  function Matched(t: Table, id: JsonValue): (r: Option<int>)
    ensures r.Some? ==> r.value in t && BoundKey(id) == r
    ensures r.None? ==> BoundKey(id).None? || BoundKey(id).value !in t
  {
    match BoundKey(id)
    case Some(k) => if k in t then Some(k) else None
    case None => None
  }

  // ---------------------------------------------------------------------------
  // The table after each statement

  /** `UPDATE items SET name = ?, cost = ?, quantity = ? WHERE rowid = ?`. */
  function Updated(t: Table, id: JsonValue, item: Item): Table {
    match Matched(t, id)
    case Some(k) => t[k := item]
    case None => t
  }

  /** `DELETE FROM items WHERE rowid = ?`. */
  function Deleted(t: Table, id: JsonValue): Table {
    match Matched(t, id)
    case Some(k) => t - {k}
    case None => t
  }

  /** An update rewrites the reached row, keeps every rowid, and leaves every
      other row as it was; when no row is reached nothing changes. */
  lemma UpdatedChangesOneRow(t: Table, id: JsonValue, item: Item)
    ensures Updated(t, id, item).Keys == t.Keys
    ensures Matched(t, id).Some? ==> Updated(t, id, item)[Matched(t, id).value] == item
    ensures forall k :: k in t && Matched(t, id) != Some(k) ==> Updated(t, id, item)[k] == t[k]
    ensures Matched(t, id).None? ==> Updated(t, id, item) == t
  {
  }

  /** Sending the same update twice leaves the table as sending it once. */
  lemma UpdatedIdempotent(t: Table, id: JsonValue, item: Item)
    ensures Updated(Updated(t, id, item), id, item) == Updated(t, id, item)
  {
    assert Matched(Updated(t, id, item), id) == Matched(t, id);
  }

  /** A delete removes exactly the reached row and keeps every other row. */
  lemma DeletedRemovesOneRow(t: Table, id: JsonValue)
    ensures Matched(t, id).Some? ==> Deleted(t, id).Keys == t.Keys - {Matched(t, id).value}
    ensures Matched(t, id).Some? ==> |Deleted(t, id)| == |t| - 1
    ensures forall k :: k in Deleted(t, id) ==> k in t && Deleted(t, id)[k] == t[k]
    ensures Matched(t, id).None? ==> Deleted(t, id) == t
  {
    if Matched(t, id).Some? {
      var k := Matched(t, id).value;
      assert Deleted(t, id).Keys == t.Keys - {k};
    }
  }

  /** Some positive rowid exceeds every rowid in use, so a fresh one exists. */
  lemma {:induction false} KeysBounded(keys: set<int>) returns (bound: int)
    ensures bound > 0 && forall k :: k in keys ==> k < bound
    decreases keys
  {
    if keys == {} {
      bound := 1;
    } else {
      assert (forall j :: j !in keys) ==> keys == {};
      var k :| k in keys;
      var rest := KeysBounded(keys - {k});
      bound := if k < rest then rest else k + 1;
      assert forall j :: j in keys ==> j == k || j in keys - {k};
    }
  }

  // ---------------------------------------------------------------------------
  // Reading the table: `SELECT rowid AS id, name, cost, quantity FROM items`

  datatype Row = Row(id: int, name: JsonValue, cost: JsonValue, quantity: JsonValue)

  function RowOf(k: int, item: Item): Row {
    Row(k, item.name, item.cost, item.quantity)
  }

  /** `rows` holds one row per entry of `t`, in some order. */
  ghost predicate Projects(t: Table, rows: seq<Row>) {
    && |rows| == |t|
    && (forall i :: 0 <= i < |rows| ==> rows[i].id in t && rows[i] == RowOf(rows[i].id, t[rows[i].id]))
    && (forall k :: k in t ==> exists i :: 0 <= i < |rows| && rows[i].id == k)
    && (forall i, j :: 0 <= i < j < |rows| ==> rows[i].id != rows[j].id)
  }

  /** A row as a valid store holds it: a positive rowid and columns that passed
      the field rules when they were written. */
  predicate StoredRow(r: Row) {
    r.id > 0 && Acceptable(Item(r.name, r.cost, r.quantity))
  }

  function TableRows(t: Table): set<Row> {
    set k | k in t :: RowOf(k, t[k])
  }

  /** Whatever order the rows come in, their contents are fixed by the table. */
  lemma ProjectionContents(t: Table, rows: seq<Row>)
    requires Projects(t, rows)
    ensures (set r | r in rows) == TableRows(t)
  {
    forall r | r in TableRows(t) ensures r in rows {
      var k :| k in t && r == RowOf(k, t[k]);
      var i :| 0 <= i < |rows| && rows[i].id == k;
      assert rows[i] == r;
    }
  }

  /** Inserting under an unused rowid makes the next read show exactly one more
      row, the inserted one, beside all the rows it showed before. */
  lemma InsertAddsOneRow(t: Table, id: int, item: Item)
    requires id !in t
    ensures |t[id := item]| == |t| + 1
    ensures TableRows(t[id := item]) == TableRows(t) + {RowOf(id, item)}
    ensures RowOf(id, item) !in TableRows(t)
  {
    var u := t[id := item];
    assert u.Keys == t.Keys + {id};
    forall r | r in TableRows(u) ensures r in TableRows(t) + {RowOf(id, item)} {
      var k :| k in u && r == RowOf(k, u[k]);
      if k != id {
        assert r == RowOf(k, t[k]);
      }
    }
    forall r | r in TableRows(t) ensures r in TableRows(u) {
      var k :| k in t && r == RowOf(k, t[k]);
      assert u[k] == t[k];
    }
  }

  // ---------------------------------------------------------------------------
  // The CSV export: json2csv with four labelled fields

  datatype Field = IdField | NameField | CostField | QuantityField
  datatype Column = Column(heading: string, field: Field)
  datatype CsvDoc = CsvDoc(header: seq<string>, records: seq<seq<JsonValue>>)

  const ExportColumns: seq<Column> := [
    Column("Item ID", IdField),
    Column("Item Name", NameField),
    Column("Item Cost", CostField),
    Column("Item Quantity", QuantityField)
  ]

  function Cell(r: Row, f: Field): JsonValue {
    match f
    case IdField => Int(r.id)
    case NameField => r.name
    case CostField => r.cost
    case QuantityField => r.quantity
  }

  /** The header is the column labels; each record has one cell per column. */
  function Render(columns: seq<Column>, rows: seq<Row>): CsvDoc {
    CsvDoc(
      seq(|columns|, j requires 0 <= j < |columns| => columns[j].heading),
      seq(|rows|, i requires 0 <= i < |rows| =>
        seq(|columns|, j requires 0 <= j < |columns| => Cell(rows[i], columns[j].field))))
  }

  /** The export's header and the layout of each of its records. */
  lemma ExportLayout(rows: seq<Row>)
    ensures Render(ExportColumns, rows).header == ["Item ID", "Item Name", "Item Cost", "Item Quantity"]
    ensures |Render(ExportColumns, rows).records| == |rows|
    ensures forall i :: 0 <= i < |rows| ==>
      Render(ExportColumns, rows).records[i] == [Int(rows[i].id), rows[i].name, rows[i].cost, rows[i].quantity]
  {
  }

  /** The exported record of the row with rowid `k`. */
  function Record(k: int, item: Item): seq<JsonValue> {
    [Int(k), item.name, item.cost, item.quantity]
  }

  /** An export of the table has a record for every row and only for rows. */
  lemma ExportCoversTable(t: Table, rows: seq<Row>)
    requires Projects(t, rows)
    ensures |Render(ExportColumns, rows).records| == |t|
    ensures forall k :: k in t ==>
      exists i :: 0 <= i < |rows| && Render(ExportColumns, rows).records[i] == Record(k, t[k])
    ensures forall i :: 0 <= i < |rows| ==>
      exists k :: k in t && Render(ExportColumns, rows).records[i] == Record(k, t[k])
  {
    ExportLayout(rows);
    forall k | k in t
      ensures exists i :: 0 <= i < |rows| && Render(ExportColumns, rows).records[i] == Record(k, t[k])
    {
      var i :| 0 <= i < |rows| && rows[i].id == k;
      assert Render(ExportColumns, rows).records[i] == Record(k, t[k]);
    }
    forall i | 0 <= i < |rows|
      ensures exists k :: k in t && Render(ExportColumns, rows).records[i] == Record(k, t[k])
    {
      var k := rows[i].id;
      assert Render(ExportColumns, rows).records[i] == Record(k, t[k]);
    }
  }

  // ---------------------------------------------------------------------------
  // The store

  class Store {
    /** The items table, by rowid. */
    var items: Table

    /** Every row has a positive rowid and columns that passed the field rules. */
    ghost predicate Valid()
      reads this
    {
      forall k :: k in items ==> k > 0 && Acceptable(items[k])
    }

    constructor ()
      ensures Valid() && items == map[]
    {
      items := map[];
    }

    /** POST /inventory. `insertFails` stands for an error reported by the INSERT. */
    method Create(req: Request, insertFails: bool) returns (resp: Response)
      requires Valid()
      modifies this
      ensures Valid()
      ensures match CheckCreate(req)
        case Reject(status, message) => resp == ErrorResponse(status, message) && items == old(items)
        case Accept(item) =>
          if insertFails then
            resp == ErrorResponse(StatusServerError, "unable to insert item") && items == old(items)
          else
            && resp.status == StatusOk && resp.body.SuccessWithId?
            && resp.body.id > 0 && resp.body.id !in old(items)
            && items == old(items)[resp.body.id := item]
    {
      match CheckCreate(req) {
        case Reject(status, message) =>
          resp := ErrorResponse(status, message);
        case Accept(item) =>
          if insertFails {
            resp := ErrorResponse(StatusServerError, "unable to insert item");
          } else {
            CreateAccepted(req);
            ghost var bound := KeysBounded(items.Keys);
            assert bound !in items;
            var id :| id > 0 && id !in items;
            items := items[id := item];
            resp := Response(StatusOk, SuccessWithId(id));
          }
      }
    }

    /** PUT /inventory. `updateFails` stands for an error reported by the UPDATE. */
    method Update(req: Request, updateFails: bool) returns (resp: Response)
      requires Valid()
      modifies this
      ensures Valid()
      ensures match CheckUpdate(req)
        case Reject(status, message) => resp == ErrorResponse(status, message) && items == old(items)
        case Accept(change) =>
          if updateFails then
            resp == ErrorResponse(StatusOk, "unable to update item") && items == old(items)
          else
            resp == Response(StatusOk, Success) && items == Updated(old(items), change.id, change.item)
    {
      match CheckUpdate(req) {
        case Reject(status, message) =>
          resp := ErrorResponse(status, message);
        case Accept(change) =>
          if updateFails {
            resp := ErrorResponse(StatusOk, "unable to update item");
          } else {
            UpdateChecksIdFirst(req);
            items := Updated(items, change.id, change.item);
            resp := Response(StatusOk, Success);
          }
      }
    }

    /** DELETE /inventory. `deleteFails` stands for an error reported by the DELETE. */
    method Delete(req: Request, deleteFails: bool) returns (resp: Response)
      requires Valid()
      modifies this
      ensures Valid()
      ensures match CheckDelete(req)
        case Reject(status, message) => resp == ErrorResponse(status, message) && items == old(items)
        case Accept(id) =>
          if deleteFails then
            resp == ErrorResponse(StatusOk, "unable to delete item") && items == old(items)
          else match Matched(old(items), id)
            case Some(k) => resp == Response(StatusOk, Success) && items == old(items) - {k}
            case None =>
              resp == ErrorResponse(StatusBadRequest, "Item to delete was not found") && items == old(items)
    {
      match CheckDelete(req) {
        case Reject(status, message) =>
          resp := ErrorResponse(status, message);
        case Accept(id) =>
          if deleteFails {
            resp := ErrorResponse(StatusOk, "unable to delete item");
          } else {
            var changes := if Matched(items, id).Some? then 1 else 0;
            items := Deleted(items, id);
            if changes == 0 {
              resp := ErrorResponse(StatusBadRequest, "Item to delete was not found");
            } else {
              resp := Response(StatusOk, Success);
            }
          }
      }
    }

    /** The SELECT both GET endpoints run: every row once, in an order the
        storage engine chooses. */
    method Scan() returns (rows: seq<Row>)
      ensures Projects(items, rows)
    {
      rows := [];
      var pending := items.Keys;
      while pending != {}
        invariant pending <= items.Keys
        invariant |rows| + |pending| == |items|
        invariant forall i :: 0 <= i < |rows| ==>
          rows[i].id in items && rows[i].id !in pending && rows[i] == RowOf(rows[i].id, items[rows[i].id])
        invariant forall k :: k in items && k !in pending ==> exists i :: 0 <= i < |rows| && rows[i].id == k
        invariant forall i, j :: 0 <= i < j < |rows| ==> rows[i].id != rows[j].id
        decreases pending
      {
        assert (forall j :: j !in pending) ==> pending == {};
        var k :| k in pending;
        ghost var before := rows;
        rows := rows + [RowOf(k, items[k])];
        pending := pending - {k};
        forall k' | k' in items && k' !in pending
          ensures exists i :: 0 <= i < |rows| && rows[i].id == k'
        {
          if k' == k {
            assert rows[|rows| - 1].id == k';
          } else {
            var i :| 0 <= i < |before| && before[i].id == k';
            assert rows[i].id == k';
          }
        }
      }
    }

    /** GET /inventory. `selectFails` stands for an error reported by the SELECT. */
    method List(selectFails: bool) returns (resp: Response)
      requires Valid()
      ensures selectFails ==> resp == ErrorResponse(StatusServerError, "unable to retrieve data")
      ensures !selectFails ==> resp.status == StatusOk && resp.body.Items? && Projects(items, resp.body.rows)
      ensures !selectFails ==> forall i :: 0 <= i < |resp.body.rows| ==> StoredRow(resp.body.rows[i])
    {
      if selectFails {
        resp := ErrorResponse(StatusServerError, "unable to retrieve data");
      } else {
        var rows := Scan();
        resp := Response(StatusOk, Items(rows));
      }
    }

    /** GET /export. `selectFails` stands for an error reported by the SELECT,
        `renderFails` for an exception thrown by the CSV parser. */
    method Export(selectFails: bool, renderFails: bool) returns (resp: Response)
      requires Valid()
      ensures selectFails ==> resp == ErrorResponse(StatusOk, "unable to export data")
      ensures !selectFails && renderFails ==> resp == ErrorResponse(StatusServerError, "Server is unable to export CSV")
      ensures !selectFails && !renderFails ==>
        && resp.status == StatusOk && resp.body.Csv?
        && resp.body.doc.header == ["Item ID", "Item Name", "Item Cost", "Item Quantity"]
        && exists rows :: Projects(items, rows) && resp.body.doc == Render(ExportColumns, rows)
             && forall i :: 0 <= i < |rows| ==> StoredRow(rows[i])
    {
      if selectFails {
        resp := ErrorResponse(StatusOk, "unable to export data");
      } else {
        var rows := Scan();
        if renderFails {
          resp := ErrorResponse(StatusServerError, "Server is unable to export CSV");
        } else {
          ExportLayout(rows);
          resp := Response(StatusOk, Csv(Render(ExportColumns, rows)));
        }
      }
    }
  }
}

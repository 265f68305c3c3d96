/**
 * A period: signed integer magnitudes keyed by seven calendar units, the table of unit
 * spellings, the single-pass period-string parser (a StringScanner loop in the source),
 * and copy-then-scale arithmetic on a mutable Period object.
 */
module Periods {
  import opened Results

  datatype Unit = Seconds | Minutes | Hours | Days | Weeks | Months | Years

  /** The `data` hash of a Period. */
  type PeriodData = map<Unit, int>

  /** The spellings PERIOD_TYPES accepts for each unit. */
  function Aliases(u: Unit): seq<string> {
    match u
    case Seconds => ["s", "sec", "secs", "second", "seconds"]
    case Minutes => ["m", "min", "minute", "minutes"]
    case Hours => ["h", "hr", "hrs", "hour", "hours"]
    case Days => ["d", "day", "days"]
    case Weeks => ["w", "week", "weeks"]
    case Months => ["mon", "month", "months"]
    case Years => ["y", "yr", "yrs", "year", "years"]
  }

  /** PERIOD_TYPES in its declaration order, which is the order period_type searches it. */
  const PeriodTypes: seq<(Unit, seq<string>)> := [
    (Seconds, Aliases(Seconds)),
    (Minutes, Aliases(Minutes)),
    (Hours, Aliases(Hours)),
    (Days, Aliases(Days)),
    (Weeks, Aliases(Weeks)),
    (Months, Aliases(Months)),
    (Years, Aliases(Years))
  ]

  /** The unit a spelling stands for, if any. */
  function UnitOf(str: string): Option<Unit> {
    if str in Aliases(Seconds) then Some(Seconds)
    else if str in Aliases(Minutes) then Some(Minutes)
    else if str in Aliases(Hours) then Some(Hours)
    else if str in Aliases(Days) then Some(Days)
    else if str in Aliases(Weeks) then Some(Weeks)
    else if str in Aliases(Months) then Some(Months)
    else if str in Aliases(Years) then Some(Years)
    else None
  }

  /** No spelling is shared by two units, so UnitOf names exactly the unit whose row holds `str`. */
  lemma UnitOfMeansAlias(str: string, u: Unit)
    ensures UnitOf(str) == Some(u) <==> str in Aliases(u)
  {
  }

  /** Every spelling begins with one of the letters s, m, h, d, w and y. */
  lemma AliasInitial(str: string)
    ensures UnitOf(str).Some? ==> |str| > 0 && str[0] in {'s', 'm', 'h', 'd', 'w', 'y'}
  {
  }

  /** Period.period_type: the first PERIOD_TYPES row listing `str`, or "invalid period type". */
  method PeriodType(str: string) returns (r: Result<Unit>)
    ensures r.Ok? <==> exists u :: str in Aliases(u)
    ensures r.Ok? ==> str in Aliases(r.value) && UnitOf(str) == Some(r.value)
    ensures r.Err? ==> UnitOf(str) == None && r.error == InvalidPeriodType(str)
  {
    var i := 0;
    while i < |PeriodTypes|
      invariant 0 <= i <= |PeriodTypes|
      invariant forall j :: 0 <= j < i ==> str !in PeriodTypes[j].1
    {
      var (unit, variations) := PeriodTypes[i];
      if str in variations {
        UnitOfMeansAlias(str, unit);
        return Ok(unit);
      }
      i := i + 1;
    }
    assert forall u :: str !in Aliases(u) by {
      forall u ensures str !in Aliases(u) {
        match u
        case Seconds => assert PeriodTypes[0].1 == Aliases(u);
        case Minutes => assert PeriodTypes[1].1 == Aliases(u);
        case Hours => assert PeriodTypes[2].1 == Aliases(u);
        case Days => assert PeriodTypes[3].1 == Aliases(u);
        case Weeks => assert PeriodTypes[4].1 == Aliases(u);
        case Months => assert PeriodTypes[5].1 == Aliases(u);
        case Years => assert PeriodTypes[6].1 == Aliases(u);
      }
    }
    return Err(InvalidPeriodType(str));
  }

  // ---------------------------------------------------------------------------------------
  // The scanner pattern  \s*(-?\d+(?:\.\d+)?)?\s*([A-Za-z]+)\s*  matched at one position.
  // The pattern has a single way to match (every repetition is greedy and what follows it
  // cannot start with a character it consumed), so it is modelled without backtracking.

  datatype CharClass = Space | Digit | Letter

  predicate In(cls: CharClass, c: char) {
    match cls
    case Space => c == ' ' || c == '\t' || c == '\n' || c == '\r' || c == '\U{000C}' || c == '\U{000B}'
    case Digit => '0' <= c <= '9'
    case Letter => ('A' <= c <= 'Z') || ('a' <= c <= 'z')
  }

  /** The end of the longest run of `cls` characters starting at `i`. */
  function Skip(s: string, i: nat, cls: CharClass): (j: nat)
    requires i <= |s|
    ensures i <= j <= |s|
    ensures forall k :: i <= k < j ==> In(cls, s[k])
    ensures j < |s| ==> !In(cls, s[j])
    decreases |s| - i
  {
    if i < |s| && In(cls, s[i]) then Skip(s, i + 1, cls) else i
  }

  /** The end of the optional number `-?\d+(?:\.\d+)?` at `a` (`a` itself when there is none). */
  function NumberEnd(s: string, a: nat): (b: nat)
    requires a <= |s|
    ensures a <= b <= |s|
  {
    var digitsFrom := if a < |s| && s[a] == '-' then a + 1 else a;
    if digitsFrom < |s| && In(Digit, s[digitsFrom]) then
      var d := Skip(s, digitsFrom, Digit);
      if d + 1 < |s| && s[d] == '.' && In(Digit, s[d + 1]) then Skip(s, d + 1, Digit) else d
    else a
  }

  /** One successful `scanner.skip`: the captured number (group 1), the alias (group 2), the new position. */
  datatype Lexeme = Lexeme(number: Option<string>, alias: string, end: nat)

  function MatchAt(s: string, i: nat): (m: Option<Lexeme>)
    requires i <= |s|
    ensures m.Some? ==> i < m.value.end <= |s|
  {
    var a := Skip(s, i, Space);
    var b := NumberEnd(s, a);
    var c := Skip(s, b, Space);
    if c < |s| && In(Letter, s[c]) then
      var d := Skip(s, c, Letter);
      Some(Lexeme(if a < b then Some(s[a..b]) else None, s[c..d], Skip(s, d, Space)))
    else None
  }

  /** The lexemes of `while scanner.skip(...)` from position `i`, and the position it stops at. */
  function Lexemes(s: string, i: nat): (res: (seq<Lexeme>, nat))
    requires i <= |s|
    ensures i <= res.1 <= |s|
    decreases |s| - i
  {
    match MatchAt(s, i)
    case None => ([], i)
    case Some(l) =>
      var rest := Lexemes(s, l.end);
      ([l] + rest.0, rest.1)
  }

  // ---------------------------------------------------------------------------------------
  // Magnitudes: Kernel#Integer on "-?\d+" (a leading 0 makes the digits octal) or Float.

  /** A parsed magnitude; the text of a Float is kept but not interpreted. */
  datatype Number = Whole(n: int) | Fraction(text: string)

  function DigitValue(c: char): int {
    (c as int) - ('0' as int)
  }

  function DigitsValue(ds: string, base: nat): int
    decreases |ds|
  {
    if ds == [] then 0 else DigitsValue(ds[..|ds| - 1], base) * base + DigitValue(ds[|ds| - 1])
  }

  /** Kernel#Integer on the texts the scanner captures: an optional sign, then digits. */
  function ParseInteger(text: string): Option<int> {
    if |text| > 0 && text[0] == '-' then
      match ParseDigits(text[1..])
      case Some(n) => Some(-n)
      case None => None
    else ParseDigits(text)
  }

  /** Unsigned digits; a leading `0` before further digits makes them octal. */
  function ParseDigits(ds: string): Option<int> {
    if ds == [] || exists k :: 0 <= k < |ds| && !In(Digit, ds[k]) then None
    else if |ds| > 1 && ds[0] == '0' then
      if exists k :: 1 <= k < |ds| && ds[k] > '7' then None
      else Some(DigitsValue(ds[1..], 8))
    else Some(DigitsValue(ds, 10))
  }

  /** `value.include?('.') ? Float(value) : Integer(value)` */
  function ToNumber(text: string): Option<Number> {
    if '.' in text then Some(Fraction(text))
    else match ParseInteger(text)
      case Some(n) => Some(Whole(n))
      case None => None
  }

  /** `scanner[1] || "1"`, then period_type and the magnitude: a missing number means "1"; the alias must name a unit. */
  function Interpret(l: Lexeme): Option<(Unit, Number)> {
    match (UnitOf(l.alias), ToNumber(l.number.GetOr("1")))
    case (Some(u), Some(v)) => Some((u, v))
    case _ => None
  }

  function InterpretAll(ls: seq<Lexeme>): Option<seq<(Unit, Number)>>
    decreases |ls|
  {
    if ls == [] then Some([])
    else match (Interpret(ls[0]), InterpretAll(ls[1..]))
      case (Some(t), Some(ts)) => Some([t] + ts)
      case _ => None
  }

  /** `data[type] = value` for each token in turn. */
  function Assign(data: map<Unit, Number>, toks: seq<(Unit, Number)>): map<Unit, Number>
    decreases |toks|
  {
    if toks == [] then data else Assign(data[toks[0].0 := toks[0].1], toks[1..])
  }

  /** The data when every magnitude is whole; Float magnitudes are outside the model. */
  function Integral(data: map<Unit, Number>): Option<PeriodData> {
    if forall u :: u in data ==> data[u].Whole? then Some(map u | u in data :: data[u].n) else None
  }

  /** What parsing `str` yields once the scanner stands at `pos` having collected `data`. */
  function ParseFrom(str: string, pos: nat, data: map<Unit, Number>): Result<PeriodData>
    requires pos <= |str|
  {
    var (ls, stop) := Lexemes(str, pos);
    match InterpretAll(ls)
    case None => Err(InvalidPeriodString(str))
    case Some(toks) =>
      if stop != |str| then Err(InvalidPeriodString(str))
      else match Integral(Assign(data, toks))
        case None => Err(FractionalMagnitude(str))
        case Some(d) => Ok(d)
  }

  /** The meaning of Period.parse. */
  function ParseSpec(str: string): Result<PeriodData> {
    ParseFrom(str, 0, map[])
  }

  /** Period.parse: scan lexemes until the pattern no longer matches, then demand end of input. */
  method Parse(str: string) returns (r: Result<PeriodData>)
    ensures r == ParseSpec(str)
  {
    var data: map<Unit, Number> := map[];
    var pos := 0;
    while true
      invariant pos <= |str|
      invariant ParseFrom(str, pos, data) == ParseSpec(str)
      decreases |str| - pos
    {
      var m := MatchAt(str, pos);
      if m.None? {
        break;
      }
      var lexeme := m.value;
      ParseFromStep(str, pos, data, lexeme);
      var value := lexeme.number.GetOr("1");
      var unit := PeriodType(lexeme.alias);
      if unit.Err? {
        return Err(InvalidPeriodString(str));
      }
      var number := ToNumber(value);
      if number.None? {
        return Err(InvalidPeriodString(str));
      }
      data := data[unit.value := number.value];
      pos := lexeme.end;
    }
    ParseFromStop(str, pos, data);
    if pos != |str| {
      return Err(InvalidPeriodString(str));
    }
    var whole := Integral(data);
    if whole.None? {
      return Err(FractionalMagnitude(str));
    }
    return Ok(whole.value);
  }

  /** A lexeme the scanner accepts either fails to interpret, failing the whole parse, or
      assigns its magnitude and leaves the rest of the parse to the following text. */
  lemma ParseFromStep(str: string, pos: nat, data: map<Unit, Number>, l: Lexeme)
    requires pos <= |str| && MatchAt(str, pos) == Some(l)
    ensures Interpret(l).None? ==> ParseFrom(str, pos, data) == Err(InvalidPeriodString(str))
    ensures Interpret(l).Some? ==>
      ParseFrom(str, pos, data) == ParseFrom(str, l.end, data[Interpret(l).value.0 := Interpret(l).value.1])
  {
    var rest := Lexemes(str, l.end);
    var ls := [l] + rest.0;
    assert Lexemes(str, pos) == (ls, rest.1);
    assert ls[0] == l && ls[1..] == rest.0;
    if Interpret(l).Some? && InterpretAll(rest.0).Some? {
      var tok, toks := Interpret(l).value, InterpretAll(rest.0).value;
      assert InterpretAll(ls) == Some([tok] + toks);
      assert ([tok] + toks)[0] == tok && ([tok] + toks)[1..] == toks;
      assert Assign(data, [tok] + toks) == Assign(data[tok.0 := tok.1], toks);
    }
  }

  /** Where the pattern no longer matches, the parse needs the end of the input and whole
      magnitudes. */
  lemma ParseFromStop(str: string, pos: nat, data: map<Unit, Number>)
    requires pos <= |str| && MatchAt(str, pos).None?
    ensures ParseFrom(str, pos, data) ==
      if pos != |str| then Err(InvalidPeriodString(str))
      else match Integral(data)
        case None => Err(FractionalMagnitude(str))
        case Some(d) => Ok(d)
  {
  }

  // ---------------------------------------------------------------------------------------
  // Scaling.

  function Scale(d: PeriodData, factor: int): PeriodData {
    map u | u in d :: d[u] * factor
  }

  function Negate(d: PeriodData): PeriodData {
    Scale(d, -1)
  }

  /** A Period object; `multiply!` replaces its data, everything else copies first. */
  class Period {
    var data: PeriodData

    constructor (data: PeriodData)
      ensures this.data == data
    {
      this.data := data;
    }

    /** `dup` with initialize_copy: a fresh object over a copy of the data. */
    method Dup() returns (copy: Period)
      ensures fresh(copy) && copy.data == data
    {
      copy := new Period(data);
    }

    /** multiply!: every magnitude times `factor`, keys kept, written into this object. */
    method MultiplyBang(factor: int) returns (self: Period)
      modifies this
      ensures self == this
      ensures data == Scale(old(data), factor)
    {
      var newData: PeriodData := map[];
      var pending := data.Keys;
      while pending != {}
        invariant pending <= data.Keys
        invariant newData.Keys == data.Keys - pending
        invariant forall u :: u in newData ==> newData[u] == data[u] * factor
        invariant data == old(data)
        decreases |pending|
      {
        var key :| key in pending;
        newData := newData[key := data[key] * factor];
        pending := pending - {key};
      }
      assert newData == Scale(data, factor);
      data := newData;
      self := this;
    }

    /** multiply: the same scaling on a copy; the receiver keeps its data. */
    method Multiply(factor: int) returns (product: Period)
      ensures fresh(product) && product.data == Scale(data, factor)
    {
      var copy := Dup();
      product := copy.MultiplyBang(factor);
    }

    /** reverse! as written: it returns `multiply(-1)`, a negated copy, and leaves this object alone. */
    method ReverseBang() returns (reversed: Period)
      ensures fresh(reversed) && reversed != this
      ensures reversed.data == Negate(data)
    {
      reversed := Multiply(-1);
    }

    /** reverse: `dup.reverse!`, a negated copy. */
    method Reverse() returns (reversed: Period)
      ensures fresh(reversed) && reversed.data == Negate(data)
    {
      var copy := Dup();
      reversed := copy.ReverseBang();
    }
  }

  /** What `coerce` is handed: a Period, a Hash of magnitudes, a String, a whole number of
      seconds, or anything else (described by its `inspect`). */
  datatype PeriodSource =
    | FromPeriod(period: Period)
    | FromHash(data: PeriodData)
    | FromString(text: string)
    | FromNumber(seconds: int)
    | FromOther(description: string)

  /** The objects whose state `coerce` looks at. */
  function Footprint(src: PeriodSource): set<Period> {
    if src.FromPeriod? then {src.period} else {}
  }

  /** The data of the period `coerce` returns, or the error it raises.  The String arm calls
      `parse(str)` on a name that is not defined there, so it always fails. */
  function CoercedData(src: PeriodSource): Result<PeriodData>
    reads Footprint(src)
  {
    match src
    case FromPeriod(p) => Ok(p.data)
    case FromHash(d) => Ok(d)
    case FromString(_) => Err(UndefinedLocalStr)
    case FromNumber(n) => Ok(map[Seconds := n])
    case FromOther(description) => Err(CannotCoerce(description))
  }

  /** Period.coerce: a Period is returned as it is; a Hash or a number becomes a new Period. */
  method Coerce(src: PeriodSource) returns (r: Result<Period>)
    ensures r.Ok? <==> CoercedData(src).Ok?
    ensures r.Ok? ==> r.value.data == CoercedData(src).value
    ensures r.Err? ==> r == Err(CoercedData(src).error)
    ensures src.FromPeriod? ==> r == Ok(src.period)
    ensures src.FromHash? || src.FromNumber? ==> r.Ok? && fresh(r.value)
  {
    match src
    case FromPeriod(p) =>
      r := Ok(p);
    case FromHash(d) =>
      var period := new Period(d);
      r := Ok(period);
    case FromString(_) =>
      r := Err(UndefinedLocalStr);
    case FromNumber(n) =>
      var period := new Period(map[Seconds := n]);
      r := Ok(period);
    case FromOther(description) =>
      r := Err(CannotCoerce(description));
  }

  /** Reversing twice restores the original data. */
  lemma NegateInvolution(d: PeriodData)
    ensures Negate(Negate(d)) == d
  {
  }

  /** Scaling twice is scaling by the product (so `period * i * j == period * (i * j)`). */
  lemma ScaleCompose(d: PeriodData, a: int, b: int)
    ensures Scale(Scale(d, a), b) == Scale(d, a * b)
  {
  }
}

/**
 * What Period.parse means: the value kept for a unit is the last one written for it, and
 * a period written out as `<integer><alias>` pieces parses back to exactly those magnitudes.
 */
module PeriodStrings {
  import opened Results
  import opened Periods

  // ---------------------------------------------------------------------------------------
  // Last write wins.

  /** After `data[type] = value` for each token, a unit has a value exactly when it had one
      before or some token names it. */
  lemma {:induction false} AssignKeys(data: map<Unit, Number>, toks: seq<(Unit, Number)>, u: Unit)
    ensures u in Assign(data, toks) <==> u in data || exists k :: 0 <= k < |toks| && toks[k].0 == u
    decreases |toks|
  {
    if toks != [] {
      AssignKeys(data[toks[0].0 := toks[0].1], toks[1..], u);
      if exists k :: 0 <= k < |toks[1..]| && toks[1..][k].0 == u {
        var k :| 0 <= k < |toks[1..]| && toks[1..][k].0 == u;
        assert toks[k + 1].0 == u;
      }
      if exists k :: 0 <= k < |toks| && toks[k].0 == u {
        var k :| 0 <= k < |toks| && toks[k].0 == u;
        if k > 0 {
          assert toks[1..][k - 1].0 == u;
        }
      }
    }
  }

  /** The value kept for a unit is that of the last token naming it. */
  lemma {:induction false} AssignLast(data: map<Unit, Number>, toks: seq<(Unit, Number)>, k: nat)
    requires k < |toks|
    requires forall j :: k < j < |toks| ==> toks[j].0 != toks[k].0
    ensures toks[k].0 in Assign(data, toks) && Assign(data, toks)[toks[k].0] == toks[k].1
    decreases |toks|
  {
    var u := toks[k].0;
    var data' := data[toks[0].0 := toks[0].1];
    if k == 0 {
      AssignKept(data', toks[1..], u);
      forall j | 0 <= j < |toks[1..]| ensures toks[1..][j].0 != u {
        assert toks[1..][j] == toks[j + 1];
      }
    } else {
      assert toks[1..][k - 1] == toks[k];
      forall j | k - 1 < j < |toks[1..]| ensures toks[1..][j].0 != u {
        assert toks[1..][j] == toks[j + 1];
      }
      AssignLast(data', toks[1..], k - 1);
    }
  }

  /** A unit no token names keeps its old value. */
  lemma {:induction false} AssignKept(data: map<Unit, Number>, toks: seq<(Unit, Number)>, u: Unit)
    requires u in data && forall k :: 0 <= k < |toks| ==> toks[k].0 != u
    ensures u in Assign(data, toks) && Assign(data, toks)[u] == data[u]
    decreases |toks|
  {
    if toks != [] {
      forall k | 0 <= k < |toks[1..]| ensures toks[1..][k].0 != u {
        assert toks[1..][k] == toks[k + 1];
      }
      AssignKept(data[toks[0].0 := toks[0].1], toks[1..], u);
    }
  }

  // ---------------------------------------------------------------------------------------
  // Written periods.

  function DigitChar(d: nat): char
    requires d < 10
  {
    ('0' as int + d) as char
  }

  /** The decimal digits of `n`, without leading zeros. */
  function NatText(n: nat): string
    decreases n
  {
    if n < 10 then [DigitChar(n)] else NatText(n / 10) + [DigitChar(n % 10)]
  }

  function IntText(v: int): string {
    if v < 0 then "-" + NatText(-v) else NatText(v)
  }

  /** One `<magnitude><alias>` piece of a period string, with the unit its alias spells. */
  datatype Written = Written(magnitude: int, unit: Unit, alias: string)

  predicate WellWritten(ws: seq<Written>) {
    forall k :: 0 <= k < |ws| ==> ws[k].alias in Aliases(ws[k].unit)
  }

  lemma WellWrittenTail(ws: seq<Written>)
    requires ws != [] && WellWritten(ws)
    ensures ws[0].alias in Aliases(ws[0].unit) && WellWritten(ws[1..])
  {
    assert forall k :: 0 <= k < |ws[1..]| ==> ws[1..][k] == ws[k + 1];
  }

  function Piece(w: Written): string {
    IntText(w.magnitude) + w.alias
  }

  function Render(ws: seq<Written>): string
    decreases |ws|
  {
    if ws == [] then "" else Piece(ws[0]) + Render(ws[1..])
  }

  /** The period the pieces describe, later pieces overriding earlier ones for the same unit. */
  function LastWins(d: PeriodData, ws: seq<Written>): PeriodData
    requires WellWritten(ws)
    decreases |ws|
  {
    if ws == [] then d
    else LastWins(d[ws[0].unit := ws[0].magnitude], ws[1..])
  }

  /** A non-empty run of letters, as `[A-Za-z]+` captures. */
  predicate Word(a: string) {
    |a| > 0 && forall k :: 0 <= k < |a| ==> In(Letter, a[k])
  }

  lemma AliasIsWord(a: string, u: Unit)
    requires a in Aliases(u)
    ensures Word(a)
  {
    match u
    case Seconds =>
    case Minutes =>
    case Hours =>
    case Days =>
    case Weeks =>
    case Months =>
    case Years =>
  }

  lemma {:induction false} NatTextFacts(n: nat)
    ensures |NatText(n)| > 0
    ensures forall k :: 0 <= k < |NatText(n)| ==> In(Digit, NatText(n)[k])
    ensures n > 0 ==> NatText(n)[0] != '0'
    ensures DigitsValue(NatText(n), 10) == n
    decreases n
  {
    if n >= 10 {
      NatTextFacts(n / 10);
      var t := NatText(n);
      assert t[..|t| - 1] == NatText(n / 10);
      assert t[0] == NatText(n / 10)[0];
    }
  }

  /** An optional sign followed by at least one digit. */
  predicate IntShaped(t: string) {
    && |t| > 0 && (t[0] == '-' || In(Digit, t[0]))
    && (forall k :: 1 <= k < |t| ==> In(Digit, t[k]))
    && (t[0] == '-' ==> |t| > 1)
  }

  /** A written integer is an optional sign followed by digits. */
  lemma IntTextShape(v: int)
    ensures IntShaped(IntText(v))
  {
    if v < 0 {
      NatTextFacts(-v);
      var t := IntText(v);
      assert t[1..] == NatText(-v);
      assert forall k :: 1 <= k < |t| ==> t[k] == NatText(-v)[k - 1];
    } else {
      NatTextFacts(v);
    }
  }

  lemma IntTextParses(v: int)
    ensures ParseInteger(IntText(v)) == Some(v)
    ensures '.' !in IntText(v)
    ensures |IntText(v)| > 0 && (IntText(v)[0] == '-' || In(Digit, IntText(v)[0]))
    ensures forall k :: 0 <= k < |IntText(v)| && IntText(v)[k] != '-' ==> In(Digit, IntText(v)[k])
    ensures forall k :: 1 <= k < |IntText(v)| ==> In(Digit, IntText(v)[k])
  {
    if v < 0 {
      NatTextFacts(-v);
      var t := IntText(v);
      assert t[1..] == NatText(-v);
    } else {
      NatTextFacts(v);
    }
  }

  /** Skip stops exactly at the end of a run it is shown. */
  lemma {:induction false} SkipExact(s: string, i: nat, j: nat, cls: CharClass)
    requires i <= j <= |s|
    requires forall k :: i <= k < j ==> In(cls, s[k])
    requires j < |s| ==> !In(cls, s[j])
    ensures Skip(s, i, cls) == j
    decreases j - i
  {
    if i < j {
      SkipExact(s, i + 1, j, cls);
    }
  }

  /** The number at `p` ends where a written integer ends, when a letter follows it. */
  lemma NumberEndOfInt(s: string, p: nat, t: string)
    requires IntShaped(t)
    requires p + |t| < |s| && s[p..p + |t|] == t
    requires In(Letter, s[p + |t|])
    ensures NumberEnd(s, p) == p + |t|
  {
    var q := p + |t|;
    assert forall k :: p <= k < q ==> s[k] == t[k - p] by {
      forall k | p <= k < q ensures s[k] == t[k - p] {
        assert s[k] == s[p..q][k - p];
      }
    }
    var digitsFrom := if s[p] == '-' then p + 1 else p;
    assert forall k :: digitsFrom <= k < q ==> In(Digit, s[k]);
    SkipExact(s, digitsFrom, q, Digit);
  }

  /** A match with no surrounding space: a number ending at `q`, then letters up to `e`. */
  lemma MatchOfRuns(s: string, p: nat, q: nat, e: nat)
    requires p < q < e <= |s|
    requires !In(Space, s[p]) && NumberEnd(s, p) == q
    requires forall k :: q <= k < e ==> In(Letter, s[k])
    requires e < |s| ==> !In(Letter, s[e]) && !In(Space, s[e])
    ensures MatchAt(s, p) == Some(Lexeme(Some(s[p..q]), s[q..e], e))
  {
    SkipExact(s, p, p, Space);
    SkipExact(s, q, q, Space);
    SkipExact(s, q, e, Letter);
    SkipExact(s, e, e, Space);
  }

  /** Where a piece is written into `s`, its integer and its alias occupy consecutive runs. */
  lemma PieceRuns(s: string, p: nat, t: string, a: string)
    requires Word(a) && |t| > 0
    requires p + |t + a| <= |s| && s[p..p + |t + a|] == t + a
    ensures s[p..p + |t|] == t && s[p + |t|..p + |t| + |a|] == a && s[p] == t[0]
    ensures forall k :: p + |t| <= k < p + |t| + |a| ==> In(Letter, s[k])
  {
    var q := p + |t|;
    var e := q + |a|;
    assert s[p..q] == s[p..e][..|t|];
    assert s[q..e] == s[p..e][|t|..];
    assert s[p] == s[p..q][0];
    forall k | q <= k < e ensures In(Letter, s[k]) {
      assert s[k] == s[q..e][k - q];
    }
  }

  /** A written integer and a word, followed by nothing or by a sign or digit, are one
      scanner match. */
  lemma MatchNumberWord(s: string, p: nat, t: string, a: string)
    requires IntShaped(t) && Word(a)
    requires p + |t + a| <= |s| && s[p..p + |t + a|] == t + a
    requires p + |t + a| < |s| ==> s[p + |t + a|] == '-' || In(Digit, s[p + |t + a|])
    ensures MatchAt(s, p) == Some(Lexeme(Some(t), a, p + |t + a|))
  {
    var q := p + |t|;
    var e := q + |a|;
    assert e == p + |t + a|;
    PieceRuns(s, p, t, a);
    assert s[p..q] == t && s[q..e] == a;
    assert In(Letter, s[q]);
    NumberEndOfInt(s, p, t);
    assert !In(Space, s[p]);
    assert e < |s| ==> !In(Letter, s[e]) && !In(Space, s[e]);
    MatchOfRuns(s, p, q, e);
  }

  /** A piece followed by nothing or by another piece is one scanner match. */
  lemma MatchPiece(s: string, p: nat, w: Written, e: nat)
    requires Word(w.alias)
    requires e == p + |Piece(w)| && e <= |s| && s[p..e] == Piece(w)
    requires e < |s| ==> s[e] == '-' || In(Digit, s[e])
    ensures MatchAt(s, p) == Some(Lexeme(Some(IntText(w.magnitude)), w.alias, e))
  {
    var t := IntText(w.magnitude);
    assert Piece(w) == t + w.alias;
    IntTextShape(w.magnitude);
    MatchNumberWord(s, p, t, w.alias);
  }

  /** The tokens Parse extracts from rendered pieces. */
  function Tokens(ws: seq<Written>): seq<(Unit, Number)>
    requires WellWritten(ws)
    decreases |ws|
  {
    if ws == [] then [] else [(ws[0].unit, Whole(ws[0].magnitude))] + Tokens(ws[1..])
  }

  /** The lexeme of a piece reads back as its unit and whole magnitude. */
  lemma InterpretPiece(w: Written, e: nat)
    requires w.alias in Aliases(w.unit)
    ensures Interpret(Lexeme(Some(IntText(w.magnitude)), w.alias, e)) == Some((w.unit, Whole(w.magnitude)))
  {
    IntTextParses(w.magnitude);
    UnitOfMeansAlias(w.alias, w.unit);
  }

  /** A rendered piece begins with a sign or a digit. */
  lemma RenderStart(ws: seq<Written>)
    requires ws != []
    ensures |Render(ws)| > 0 && (Render(ws)[0] == '-' || In(Digit, Render(ws)[0]))
  {
    IntTextParses(ws[0].magnitude);
    assert Render(ws)[0] == Piece(ws[0])[0];
  }

  /** Where rendered pieces are written into `s`, the first piece comes first, the rest
      follow it, and what follows it starts with a sign or a digit. */
  lemma RenderedHead(s: string, p: nat, ws: seq<Written>)
    requires ws != [] && p <= |s| && s[p..] == Render(ws)
    ensures p + |Piece(ws[0])| <= |s|
    ensures s[p..p + |Piece(ws[0])|] == Piece(ws[0]) && s[p + |Piece(ws[0])|..] == Render(ws[1..])
    ensures p + |Piece(ws[0])| < |s| ==> s[p + |Piece(ws[0])|] == '-' || In(Digit, s[p + |Piece(ws[0])|])
  {
    var n := |Piece(ws[0])|;
    assert s[p..] == Piece(ws[0]) + Render(ws[1..]);
    assert s[p..p + n] == s[p..][..n];
    assert s[p + n..] == s[p..][n..];
    if p + n < |s| {
      RenderStart(ws[1..]);
      assert s[p + n] == Render(ws[1..])[0];
    }
  }

  /** Scanning a rendered piece that ends at `e` adds its token in front of the tokens of
      what follows. */
  lemma PieceStep(s: string, p: nat, w: Written, e: nat, toks: seq<(Unit, Number)>)
    requires w.alias in Aliases(w.unit)
    requires e == p + |Piece(w)| && e <= |s| && s[p..e] == Piece(w)
    requires e < |s| ==> s[e] == '-' || In(Digit, s[e])
    requires InterpretAll(Lexemes(s, e).0) == Some(toks)
    ensures Lexemes(s, p).1 == Lexemes(s, e).1
    ensures InterpretAll(Lexemes(s, p).0) == Some([(w.unit, Whole(w.magnitude))] + toks)
  {
    var l := Lexeme(Some(IntText(w.magnitude)), w.alias, e);
    AliasIsWord(w.alias, w.unit);
    MatchPiece(s, p, w, e);
    InterpretPiece(w, e);
    LexemesCons(s, p, l, (w.unit, Whole(w.magnitude)), toks);
  }

  lemma {:induction false} LexemesOfRendered(s: string, p: nat, ws: seq<Written>)
    requires WellWritten(ws)
    requires p <= |s| && s[p..] == Render(ws)
    ensures Lexemes(s, p).1 == |s|
    ensures InterpretAll(Lexemes(s, p).0) == Some(Tokens(ws))
    decreases |ws|
  {
    if ws == [] {
      assert |s[p..]| == 0;
      assert MatchAt(s, p) == None;
    } else {
      var w := ws[0];
      RenderedHead(s, p, ws);
      WellWrittenTail(ws);
      var e := p + |Piece(w)|;
      LexemesOfRendered(s, e, ws[1..]);
      PieceStep(s, p, w, e, Tokens(ws[1..]));
      assert Tokens(ws) == [(w.unit, Whole(w.magnitude))] + Tokens(ws[1..]);
    }
  }

  /** A lexeme that interprets, followed by lexemes that all interpret, interprets as the
      token followed by the rest. */
  lemma LexemesCons(s: string, p: nat, l: Lexeme, tok: (Unit, Number), toks: seq<(Unit, Number)>)
    requires p <= |s| && MatchAt(s, p) == Some(l)
    requires Interpret(l) == Some(tok) && InterpretAll(Lexemes(s, l.end).0) == Some(toks)
    ensures Lexemes(s, p).1 == Lexemes(s, l.end).1
    ensures InterpretAll(Lexemes(s, p).0) == Some([tok] + toks)
  {
    var rest := Lexemes(s, l.end);
    var ls := [l] + rest.0;
    assert Lexemes(s, p) == (ls, rest.1);
    assert ls[0] == l && ls[1..] == rest.0;
  }

  function AsWhole(d: PeriodData): map<Unit, Number> {
    map u | u in d :: Whole(d[u])
  }

  lemma {:induction false} AssignWhole(d: PeriodData, ws: seq<Written>)
    requires WellWritten(ws)
    ensures Assign(AsWhole(d), Tokens(ws)) == AsWhole(LastWins(d, ws))
    decreases |ws|
  {
    if ws != [] {
      var u := ws[0].unit;
      WellWrittenTail(ws);
      var d' := d[u := ws[0].magnitude];
      assert AsWhole(d)[u := Whole(ws[0].magnitude)] == AsWhole(d');
      AssignWhole(d', ws[1..]);
    }
  }

  /** Writing magnitudes as `<integer><alias>` pieces and parsing the result gives back the
      period those pieces describe, the last piece for a unit winning. */
  lemma RoundTrip(ws: seq<Written>)
    requires WellWritten(ws)
    ensures ParseSpec(Render(ws)) == Ok(LastWins(map[], ws))
  {
    var s := Render(ws);
    assert s[0..] == s;
    LexemesOfRendered(s, 0, ws);
    AssignWhole(map[], ws);
    assert AsWhole(map[]) == map[];
    IntegralOfWhole(LastWins(map[], ws));
  }

  lemma IntegralOfWhole(d: PeriodData)
    ensures Integral(AsWhole(d)) == Some(d)
  {
    var w := AsWhole(d);
    assert forall u :: u in w ==> w[u].Whole?;
    assert (map u | u in w :: w[u].n) == d;
  }

  lemma IntegralOfSingle(u: Unit, n: int)
    ensures Integral(map[u := Whole(n)]) == Some(map[u := n])
  {
    var w := map[u := Whole(n)];
    assert (map v | v in w :: w[v].n) == map[u := n];
  }

  // ---------------------------------------------------------------------------------------
  // The documented string and the cases the library's tests check.

  function Repeated(): seq<Written> {
    [Written(1, Seconds, "s"), Written(2, Seconds, "s"), Written(3, Seconds, "s")]
  }

  lemma RenderRepeated()
    ensures WellWritten(Repeated()) && Render(Repeated()) == "1s2s3s"
  {
    var ws := Repeated();
    assert IntText(1) == "1" && IntText(2) == "2" && IntText(3) == "3";
    assert Render(ws[3..]) == "";
    assert Render(ws[2..]) == "3s";
    assert Render(ws[1..]) == "2s3s";
  }

  lemma LastWinsRepeated()
    ensures WellWritten(Repeated()) && LastWins(map[], Repeated()) == map[Seconds := 3]
  {
    var ws := Repeated();
    var w1, w2 := Written(2, Seconds, "s"), Written(3, Seconds, "s");
    assert ws[1..] == [w1, w2] && [w1, w2][1..] == [w2] && [w2][1..] == [];
    assert map[Seconds := 1][Seconds := 2][Seconds := 3] == map[Seconds := 3];
  }

  /** Each later piece for a unit overrides the earlier ones. */
  lemma ParseRepeated()
    ensures ParseSpec("1s2s3s") == Ok(map[Seconds := 3])
  {
    RenderRepeated();
    RoundTrip(Repeated());
    LastWinsRepeated();
  }

  lemma ParseDocumented()
    ensures ParseSpec("1sec2weeks") == Ok(map[Seconds := 1, Weeks := 2])
  {
    var ws := [Written(1, Seconds, "sec"), Written(2, Weeks, "weeks")];
    assert IntText(1) == "1" && IntText(2) == "2";
    assert Render(ws[1..]) == "2weeks";
    assert Render(ws) == "1sec2weeks";
    assert WellWritten(ws);
    RoundTrip(ws);
  }

  /** A bare alias is one lexeme with no number, after which the scanner stops. */
  lemma BareAliasScan()
    ensures MatchAt("s", 0) == Some(Lexeme(None, "s", 1)) && MatchAt("s", 1) == None
  {
    var s := "s";
    assert Skip(s, 0, Space) == 0;
    assert NumberEnd(s, 0) == 0;
    assert Skip(s, 1, Letter) == 1;
    assert Skip(s, 0, Letter) == 1;
    assert s[0..1] == "s";
    assert MatchAt(s, 1) == None;
  }

  /** A missing number stands for one. */
  lemma ParseBareAlias()
    ensures ParseSpec("s") == Ok(map[Seconds := 1])
  {
    var l := Lexeme(None, "s", 1);
    BareAliasScan();
    assert ParseInteger("1") == Some(1);
    assert UnitOf("s") == Some(Seconds);
    assert Interpret(l) == Some((Seconds, Whole(1)));
    ParseFromStep("s", 0, map[], l);
    ParseFromStop("s", 1, map[Seconds := Whole(1)]);
    IntegralOfSingle(Seconds, 1);
  }

  /** "invalid" is one lexeme with no number. */
  lemma InvalidScan()
    ensures MatchAt("invalid", 0) == Some(Lexeme(None, "invalid", 7))
  {
    var s := "invalid";
    assert Skip(s, 0, Space) == 0;
    assert NumberEnd(s, 0) == 0;
    SkipExact(s, 0, 7, Letter);
    assert s[0..7] == "invalid";
  }

  /** A word that names no unit fails the whole parse. */
  lemma ParseInvalid()
    ensures ParseSpec("invalid") == Err(InvalidPeriodString("invalid"))
  {
    var l := Lexeme(None, "invalid", 7);
    InvalidScan();
    AliasInitial("invalid");
    assert "invalid"[0] == 'i';
    assert Interpret(l).None?;
    ParseFromStep("invalid", 0, map[], l);
  }

  lemma ParseBareNumber()
    ensures ParseSpec("1") == Err(InvalidPeriodString("1"))
  {
  }

  /** Kernel#Integer reads a leading zero as octal. */
  lemma OctalMagnitude()
    ensures ParseInteger("010") == Some(8)
  {
    var digits := "010";
    assert digits[1..] == "10";
    assert "10"[..1] == "1";
    assert ""[..0] == "";
    assert "1"[..0] == "";
    assert DigitsValue("1", 8) == 1;
    assert DigitsValue("10", 8) == 8;
    assert !(exists k :: 0 <= k < |digits| && !In(Digit, digits[k]));
    assert !(exists k :: 1 <= k < |digits| && digits[k] > '7');
  }
  lemma OctalRejectsNine()
    ensures ParseInteger("09") == None
  {
    var digits := "09";
    assert digits[0] != '-';
    assert forall k :: 0 <= k < |digits| ==> In(Digit, digits[k]);
    assert |digits| > 1 && digits[0] == '0';
    assert digits[1] > '7';
  }

  /** The scanner reads "010s" as one lexeme and then stops at the end. */
  lemma OctalScan()
    ensures MatchAt("010s", 0) == Some(Lexeme(Some("010"), "s", 4))
    ensures MatchAt("010s", 4) == None
  {
    var s := "010s";
    assert Skip(s, 0, Space) == 0;
    assert Skip(s, 3, Digit) == 3;
    assert Skip(s, 2, Digit) == 3;
    assert Skip(s, 1, Digit) == 3;
    assert Skip(s, 0, Digit) == 3;
    assert NumberEnd(s, 0) == 3;
    assert Skip(s, 3, Space) == 3;
    assert Skip(s, 4, Letter) == 4;
    assert Skip(s, 3, Letter) == 4;
    assert Skip(s, 4, Space) == 4;
    assert s[0..3] == "010" && s[3..4] == "s";
    assert MatchAt(s, 4) == None;
  }

  /** The lexeme of "010s" assigns eight seconds. */
  lemma OctalToken()
    ensures Interpret(Lexeme(Some("010"), "s", 4)) == Some((Seconds, Whole(8)))
  {
    OctalMagnitude();
    assert UnitOf("s") == Some(Seconds);
    assert '.' !in "010" by {
      assert "010"[0] != '.' && "010"[1] != '.' && "010"[2] != '.';
    }
    assert ToNumber("010") == Some(Whole(8));
  }

  lemma ParseOctal()
    ensures ParseSpec("010s") == Ok(map[Seconds := 8])
  {
    var s := "010s";
    var l := Lexeme(Some("010"), "s", 4);
    OctalScan();
    OctalToken();
    ParseFromStep(s, 0, map[], l);
    ParseFromStop(s, 4, map[Seconds := Whole(8)]);
    IntegralOfSingle(Seconds, 8);
  }
}

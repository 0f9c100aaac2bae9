/**
 * apps/shared/parsing/listParser.js: the semicolon-separated number lists the
 * lottery inputs are typed in, and their formatting back into text.
 */
module ListParser {
  import opened Wrappers
  import opened Text

  /** The four ways a list can be rejected. */
  datatype ListError = EmptyList | CommaSeparator | NoNumbers | InvalidNumber(part: string)
  {
    function Message(): string {
      match this
      case EmptyList => "Empty list."
      case CommaSeparator => "Use '.' as decimal separator (commas are not allowed)."
      case NoNumbers => "No numbers found in list."
      case InvalidNumber(part) => "Invalid number: '" + part + "'."
    }
  }

  /** The value of an optional run of digits (the empty run is worth 0). */
  function RunValue(s: string): nat
  {
    if IsDigits(s) then DigitsValue(s) else 0
  }

  predicate IsDigitRun(s: string) {
    s == "" || IsDigits(s)
  }

  /**
   * `Number(s)` on an unsigned decimal literal: digits, optionally a '.'
   * and more digits, with at least one digit overall.
   */
  function ParseUnsignedDecimal(b: string): (r: Option<real>)
    ensures r.Some? ==> r.value >= 0.0
    ensures IsDigits(b) ==> r == Some(DigitsValue(b) as real)
  {
    var pieces := Split(b, '.');
    assert IsDigits(b) ==> pieces == [b] by {
      if IsDigits(b) { SplitNoSep(b, '.'); }
    }
    if |pieces| == 1 then
      if IsDigits(b) then Some(DigitsValue(b) as real) else None
    else if |pieces| == 2 && IsDigitRun(pieces[0]) && IsDigitRun(pieces[1]) && pieces[0] + pieces[1] != "" then
      Some(RunValue(pieces[0]) as real + RunValue(pieces[1]) as real / Pow10(|pieces[1]|) as real)
    else
      None
  }

  /**
   * The finite values `Number(s)` gives for a trimmed, nonempty part,
   * restricted to decimal literals with an optional sign.
   */
  function ParseDecimal(s: string): Option<real>
  {
    if |s| > 0 && s[0] == '-' then
      match ParseUnsignedDecimal(s[1..])
      case None => None
      case Some(v) => Some(-v)
    else if |s| > 0 && s[0] == '+' then ParseUnsignedDecimal(s[1..])
    else ParseUnsignedDecimal(s)
  }

  /** `String(i)` read back by `Number` gives `i`. */
  lemma ParseDecimalOfInt(i: int)
    ensures ParseDecimal(IntToString(i)) == Some(i as real)
  {
    hide ParseUnsignedDecimal;
    hide NatToString;
    var s := IntToString(i);
    if i < 0 {
      assert s[1..] == NatToString(-i);
      ParseUnsignedOfNat(-i);
    } else {
      assert s == NatToString(i);
      ParseUnsignedOfNat(i);
      assert IsDigits(s);
      assert s[0] != '-' && s[0] != '+';
    }
  }

  lemma ParseUnsignedOfNat(n: nat)
    ensures ParseUnsignedDecimal(NatToString(n)) == Some(n as real)
  {
    DigitsValueOfNat(n);
  }

  /** Trimmed pieces with the empty ones dropped, keeping their order. */
  function NonEmptyTrimmed(pieces: seq<string>): (parts: seq<string>)
    ensures |parts| <= |pieces|
    ensures forall i :: 0 <= i < |parts| ==> parts[i] != ""
  {
    if |pieces| == 0 then []
    else
      var t := Trim(pieces[0]);
      if t == "" then NonEmptyTrimmed(pieces[1..])
      else [t] + NonEmptyTrimmed(pieces[1..])
  }

  /** The parts of a list: split on ';', trimmed, empty parts dropped. */
  function ListParts(raw: string): seq<string>
  {
    NonEmptyTrimmed(Split(raw, ';'))
  }

  /** Reads the parts in order, stopping at the first one that is not a number. */
  function ParseParts(parts: seq<string>): (r: Result<seq<real>, ListError>)
    ensures r.Success? ==> |r.value| == |parts|
    ensures r.Failure? ==> r.error.InvalidNumber? && r.error.part in parts
  {
    if |parts| == 0 then Success([])
    else
      match ParseDecimal(parts[0])
      case None => Failure(InvalidNumber(parts[0]))
      case Some(v) =>
        match ParseParts(parts[1..])
        case Failure(e) => Failure(e)
        case Success(vs) => Success([v] + vs)
  }

  /** listParser.js `parseNumberList`, as a value. */
  function NumberList(input: string): (r: Result<seq<real>, ListError>)
    ensures r == Failure(EmptyList) <==> Trim(input) == ""
    ensures r == Failure(CommaSeparator) <==> Trim(input) != "" && ',' in Trim(input)
    ensures r == Failure(NoNumbers) <==> Trim(input) != "" && ',' !in Trim(input) && |ListParts(Trim(input))| == 0
    ensures r.Failure? && r.error.InvalidNumber? ==> r.error.part in ListParts(Trim(input))
    ensures r.Success? ==> |r.value| == |ListParts(Trim(input))| > 0
  {
    var raw := Trim(input);
    if raw == "" then Failure(EmptyList)
    else if ',' in raw then Failure(CommaSeparator)
    else
      var parts := ListParts(raw);
      if |parts| == 0 then Failure(NoNumbers)
      else ParseParts(parts)
  }

  /** When every part reads as a number, the values come back in part order. */
  lemma {:induction false} ParsePartsAll(parts: seq<string>, vs: seq<real>)
    requires |vs| == |parts|
    requires forall j :: 0 <= j < |parts| ==> ParseDecimal(parts[j]) == Some(vs[j])
    ensures ParseParts(parts) == Success(vs)
  {
    if |parts| > 0 {
      ParsePartsAll(parts[1..], vs[1..]);
      assert [vs[0]] + vs[1..] == vs;
    }
  }

  /** Otherwise the error names the first part that is not a number. */
  lemma {:induction false} ParsePartsFirstBad(parts: seq<string>, i: nat)
    requires i < |parts|
    requires forall j :: 0 <= j < i ==> ParseDecimal(parts[j]).Some?
    requires ParseDecimal(parts[i]).None?
    ensures ParseParts(parts) == Failure(InvalidNumber(parts[i]))
  {
    if i > 0 {
      ParsePartsFirstBad(parts[1..], i - 1);
    }
  }

  /** listParser.js `parseNumberList`: the early rejections, then the loop over the parts. */
  method ParseNumberList(input: string) returns (r: Result<seq<real>, ListError>)
    ensures r == NumberList(input)
  {
    var raw := Trim(input);
    if raw == "" {
      return Failure(EmptyList);
    }
    if ',' in raw {
      return Failure(CommaSeparator);
    }
    var parts := ListParts(raw);
    if |parts| == 0 {
      return Failure(NoNumbers);
    }
    r := ReadParts(parts);
  }

  /** The loop of `parseNumberList`: values are pushed until the first part that is not a number. */
  method ReadParts(parts: seq<string>) returns (r: Result<seq<real>, ListError>)
    ensures r == ParseParts(parts)
  {
    var values: seq<real> := [];
    var i := 0;
    while i < |parts|
      invariant 0 <= i <= |parts| && |values| == i
      invariant forall j :: 0 <= j < i ==> ParseDecimal(parts[j]) == Some(values[j])
    {
      var n := ParseDecimal(parts[i]);
      if n.None? {
        ParsePartsFirstBad(parts, i);
        return Failure(InvalidNumber(parts[i]));
      }
      values := values + [n.value];
      i := i + 1;
    }
    ParsePartsAll(parts, values);
    return Success(values);
  }

  /**
   * listParser.js `formatNumberList`, for integer values: `String(n)` joined
   * by "; ". Only the empty list formats to "".
   */
  function FormatNumberList(xs: seq<int>): (text: string)
    ensures text == "" <==> |xs| == 0
  {
    Join(IntTexts(xs), "; ")
  }

  function IntTexts(xs: seq<int>): (ts: seq<string>)
    ensures |ts| == |xs|
    ensures forall i :: 0 <= i < |xs| ==> ts[i] == IntToString(xs[i])
  {
    if |xs| == 0 then [] else [IntToString(xs[0])] + IntTexts(xs[1..])
  }

  function AsReals(xs: seq<int>): (rs: seq<real>)
    ensures |rs| == |xs| && forall i :: 0 <= i < |xs| ==> rs[i] == xs[i] as real
  {
    if |xs| == 0 then [] else [xs[0] as real] + AsReals(xs[1..])
  }

  /** Formatting "back" is undone by parsing: a nonempty list of integers round-trips. */
  lemma ParseFormatRoundTrip(xs: seq<int>)
    requires |xs| > 0
    ensures NumberList(FormatNumberList(xs)) == Success(AsReals(xs))
  {
    var text := FormatNumberList(xs);
    FormatShape(xs);
    forall j | 0 <= j < |xs| ensures ParseDecimal(IntTexts(xs)[j]) == Some(AsReals(xs)[j]) {
      ParseDecimalOfInt(xs[j]);
    }
    ParsePartsAll(IntTexts(xs), AsReals(xs));
  }

  /** The formatted text is trimmed, has no comma, and its parts are the integer texts. */
  lemma FormatShape(xs: seq<int>)
    requires |xs| > 0
    ensures FormatNumberList(xs) != "" && Trim(FormatNumberList(xs)) == FormatNumberList(xs)
    ensures ',' !in FormatNumberList(xs)
    ensures ListParts(FormatNumberList(xs)) == IntTexts(xs)
  {
    var ts := IntTexts(xs);
    JoinSpaced(ts);
    assert FormatNumberList(xs) == Join(Spaced(ts), ";");
    forall i | 0 <= i < |ts| ensures IntTextShape(ts[i]) {
      IntTextHasShape(xs[i]);
    }
    SpacedParts(ts);
    SpacedJoinTrimmed(Spaced(ts));
    SpacedJoinParts(ts);
  }

  lemma SpacedJoinTrimmed(sp: seq<string>)
    requires |sp| > 0 && forall i :: 0 <= i < |sp| ==> |sp[i]| > 0
    requires !IsSpace(sp[0][0]) && !IsSpace(sp[|sp| - 1][|sp[|sp| - 1]| - 1])
    requires forall i :: 0 <= i < |sp| ==> ',' !in sp[i]
    ensures Join(sp, ";") != "" && Trim(Join(sp, ";")) == Join(sp, ";")
    ensures ',' !in Join(sp, ";")
  {
    JoinEnds(sp, ";");
    TrimNoSpaceEnds(Join(sp, ";"));
    JoinAvoids(sp, ";", ',');
  }

  lemma SpacedJoinParts(ts: seq<string>)
    requires |ts| > 0
    requires forall i :: 0 <= i < |ts| ==> IntTextShape(ts[i])
    requires forall i :: 0 <= i < |ts| ==> ';' !in Spaced(ts)[i]
    ensures ListParts(Join(Spaced(ts), ";")) == ts
  {
    SplitJoin(Spaced(ts), ';');
    TrimSpaced(ts);
  }

  lemma SpacedParts(ts: seq<string>)
    requires |ts| > 0
    requires forall i :: 0 <= i < |ts| ==> IntTextShape(ts[i])
    ensures forall i :: 0 <= i < |ts| ==> |Spaced(ts)[i]| > 0
    ensures !IsSpace(Spaced(ts)[0][0])
    ensures !IsSpace(Spaced(ts)[|ts| - 1][|Spaced(ts)[|ts| - 1]| - 1])
    ensures forall i :: 0 <= i < |ts| ==> ',' !in Spaced(ts)[i] && ';' !in Spaced(ts)[i]
  {
    var sp := Spaced(ts);
    var last := ts[|ts| - 1];
    assert sp[|ts| - 1][|sp[|ts| - 1]| - 1] == last[|last| - 1];
    forall i | 0 <= i < |ts| ensures ',' !in sp[i] && ';' !in sp[i] {
      if i > 0 {
        assert sp[i] == " " + ts[i];
      }
    }
  }

  /** The digits of an integer, possibly after a minus sign: no whitespace, ';', ',' at all. */
  predicate IntTextShape(t: string) {
    |t| > 0 && forall k :: 0 <= k < |t| ==> (t[k] == '-' || '0' <= t[k] <= '9')
  }

  lemma IntTextHasShape(x: int)
    ensures IntTextShape(IntToString(x))
  {
    if x < 0 {
      var d := NatToString(-x);
      assert IntToString(x) == "-" + d;
    }
  }

  /** The parts as they sit between the ';' separators of a "; "-joined text. */
  function Spaced(ts: seq<string>): (sp: seq<string>)
    requires |ts| > 0
    ensures |sp| == |ts| && sp[0] == ts[0]
    ensures forall i :: 0 < i < |ts| ==> sp[i] == " " + ts[i]
  {
    [ts[0]] + seq(|ts| - 1, i requires 0 <= i < |ts| - 1 => " " + ts[i + 1])
  }

  lemma {:induction false} JoinSpaced(ts: seq<string>)
    requires |ts| > 0
    ensures Join(ts, "; ") == Join(Spaced(ts), ";")
  {
    if |ts| > 1 {
      var rest := ts[1..];
      JoinSpaced(rest);
      var sp := Spaced(ts);
      assert sp[1..] == [" " + rest[0]] + Spaced(rest)[1..];
      JoinHeadPrefix(Spaced(rest), " ", ";");
      assert [" " + rest[0]] + Spaced(rest)[1..] == Prefixed(Spaced(rest), " ");
    }
  }

  function Prefixed(ps: seq<string>, pre: string): (qs: seq<string>)
    requires |ps| > 0
  {
    [pre + ps[0]] + ps[1..]
  }

  lemma JoinHeadPrefix(ps: seq<string>, pre: string, sep: string)
    requires |ps| > 0
    ensures Join(Prefixed(ps, pre), sep) == pre + Join(ps, sep)
  {
    if |ps| > 1 {
      assert Prefixed(ps, pre)[1..] == ps[1..];
    }
  }

  /** A join whose outer parts have no whitespace at their outer ends has none either. */
  lemma {:induction false} JoinEnds(ps: seq<string>, sep: string)
    requires |ps| > 0 && forall i :: 0 <= i < |ps| ==> |ps[i]| > 0
    ensures |Join(ps, sep)| > 0
    ensures Join(ps, sep)[0] == ps[0][0]
    ensures Join(ps, sep)[|Join(ps, sep)| - 1] == ps[|ps| - 1][|ps[|ps| - 1]| - 1]
  {
    if |ps| > 1 {
      JoinEnds(ps[1..], sep);
    }
  }

  /** A character absent from every part and from the separator is absent from the join. */
  lemma {:induction false} JoinAvoids(ps: seq<string>, sep: string, c: char)
    requires forall i :: 0 <= i < |ps| ==> c !in ps[i]
    requires c !in sep
    ensures c !in Join(ps, sep)
  {
    if |ps| > 1 {
      JoinAvoids(ps[1..], sep, c);
    }
  }

  lemma {:induction false} TrimSpaced(ts: seq<string>)
    requires |ts| > 0
    requires forall i :: 0 <= i < |ts| ==> IntTextShape(ts[i])
    ensures NonEmptyTrimmed(Spaced(ts)) == ts
  {
    if |ts| == 1 {
      TrimSpacedStep(ts);
    } else {
      TrimSpaced(ts[1..]);
      TrimSpacedStep(ts);
    }
  }

  /** The first part survives trimming unchanged; the rest are as for `ts[1..]`. */
  lemma TrimSpacedStep(ts: seq<string>)
    requires |ts| > 0 && IntTextShape(ts[0])
    requires |ts| > 1 ==> IntTextShape(ts[1]) && NonEmptyTrimmed(Spaced(ts[1..])) == ts[1..]
    ensures NonEmptyTrimmed(Spaced(ts)) == ts
  {
    hide IntTextShape;
    TrimShaped(ts[0]);
    var sp := Spaced(ts);
    NonEmptyTrimmedCons(sp);
    if |ts| == 1 {
      assert sp[1..] == [];
    } else {
      SpacedTail(ts);
      TrimShaped(ts[1]);
      NonEmptyTrimmedHead(Spaced(ts[1..]), " ");
      assert [ts[0]] + ts[1..] == ts;
    }
  }

  /** An integer text is its own trim, also after one leading space. */
  lemma TrimShaped(t: string)
    requires IntTextShape(t)
    ensures t != "" && Trim(t) == t && Trim(" " + t) == t
  {
    TrimNoSpaceEnds(t);
    TrimSpacePrefix(t);
  }

  lemma SpacedTail(ts: seq<string>)
    requires |ts| > 1
    ensures Spaced(ts)[1..] == Prefixed(Spaced(ts[1..]), " ")
    ensures Spaced(ts[1..])[0] == ts[1]
  {
  }

  lemma NonEmptyTrimmedCons(sp: seq<string>)
    requires |sp| > 0 && sp[0] != "" && Trim(sp[0]) == sp[0]
    ensures NonEmptyTrimmed(sp) == [sp[0]] + NonEmptyTrimmed(sp[1..])
  {
  }

  lemma TrimSpacePrefix(t: string)
    requires |t| > 0 && !IsSpace(t[0]) && !IsSpace(t[|t| - 1])
    ensures Trim(" " + t) == t
  {
    assert (" " + t)[1..] == t;
    assert TrimStart(" " + t) == TrimStart(t);
    assert TrimStart(t) == t;
  }

  lemma NonEmptyTrimmedHead(ps: seq<string>, pre: string)
    requires |ps| > 0 && Trim(pre + ps[0]) == Trim(ps[0])
    ensures NonEmptyTrimmed(Prefixed(ps, pre)) == NonEmptyTrimmed(ps)
  {
    assert Prefixed(ps, pre)[1..] == ps[1..];
  }
}

/**
  The reaction-equation parser: an equation `lhs -> rhs` is stripped and
  split on the arrow; each side is stripped and split on `+`, and each
  piece yields one structural formula whose coefficient is the piece's
  first run of digits (1 when it has none) and whose label is its first
  run of ASCII letters. A piece without a letter is an error.
*/
module Parsing {
  import opened Wrappers
  import opened Reactions

  datatype ParseError =
    | NoLabel(piece: string)    // a `+`-separated piece holds no letter
    | SideCount(sides: nat)     // the equation does not split into exactly two sides on `->`

  type Formula = StructuralFormula<string>

  predicate IsDigit(c: char) { '0' <= c <= '9' }

  predicate IsLetter(c: char) { 'A' <= c <= 'Z' || 'a' <= c <= 'z' }

  /** The code points Python's `str.isspace` accepts, which `str.strip()` removes. */
  predicate IsSpace(c: char)
  {
    var n := c as int;
    9 <= n <= 13 || 0x1C <= n <= 0x20 || n == 0x85 || n == 0xA0 || n == 0x1680
    || 0x2000 <= n <= 0x200A || n == 0x2028 || n == 0x2029 || n == 0x202F
    || n == 0x205F || n == 0x3000
  }

  /** `s` without its leading whitespace. */
  function TrimStart(s: string): (r: string)
    ensures |r| <= |s| && r == s[|s| - |r|..]
    ensures forall k :: 0 <= k < |s| - |r| ==> IsSpace(s[k])
    ensures r != [] ==> !IsSpace(r[0])
  {
    if s != [] && IsSpace(s[0]) then TrimStart(s[1..]) else s
  }

  /** `s` without its trailing whitespace. */
  function TrimEnd(s: string): (r: string)
    ensures |r| <= |s| && r == s[..|r|]
    ensures forall k :: |r| <= k < |s| ==> IsSpace(s[k])
    ensures r != [] ==> !IsSpace(r[|r| - 1])
  {
    if s != [] && IsSpace(s[|s| - 1]) then TrimEnd(s[..|s| - 1]) else s
  }

  /** `str.strip()` with no argument. */
  function Strip(s: string): string
  {
    TrimEnd(TrimStart(s))
  }

  /**
    `str.split(sep)`: cuts `s` at each occurrence of `sep`, scanning left to
    right without overlap; there is always one more piece than cuts.
  */
  function Split(s: string, sep: string): (pieces: seq<string>)
    requires sep != []
    ensures |pieces| >= 1
    decreases |s|
  {
    if |s| < |sep| then [s]
    else if s[..|sep|] == sep then [""] + Split(s[|sep|..], sep)
    else
      var rest := Split(s[1..], sep);
      [[s[0]] + rest[0]] + rest[1..]
  }

  /** `sep.join(pieces)`, the inverse of Split. */
  function Join(pieces: seq<string>, sep: string): string
    requires |pieces| >= 1
  {
    if |pieces| == 1 then pieces[0] else pieces[0] + sep + Join(pieces[1..], sep)
  }

  /** Splitting loses nothing: joining the pieces with the separator gives back the input. */
  lemma {:induction false} JoinSplit(s: string, sep: string)
    requires sep != []
    ensures Join(Split(s, sep), sep) == s
    decreases |s|
  {
    if |s| < |sep| {
    } else if s[..|sep|] == sep {
      var rest := Split(s[|sep|..], sep);
      JoinSplit(s[|sep|..], sep);
      assert ([""] + rest)[1..] == rest;
      assert Join(Split(s, sep), sep) == "" + sep + s[|sep|..];
      assert s == "" + sep + s[|sep|..];
    } else {
      var rest := Split(s[1..], sep);
      JoinSplit(s[1..], sep);
      var pieces := [[s[0]] + rest[0]] + rest[1..];
      assert Split(s, sep) == pieces;
      JoinConsFirst(s[0], rest, sep);
      assert s == [s[0]] + s[1..];
    }
  }

  /** The first piece is a prefix of the string. */
  lemma {:induction false} SplitFirstIsPrefix(s: string, sep: string)
    requires sep != []
    ensures var first := Split(s, sep)[0]; |first| <= |s| && s[..|first|] == first
    decreases |s|
  {
    if |s| >= |sep| && s[..|sep|] != sep {
      SplitFirstIsPrefix(s[1..], sep);
      var rest := Split(s[1..], sep);
      assert Split(s, sep)[0] == [s[0]] + rest[0];
      assert s[..|rest[0]| + 1] == [s[0]] + s[1..][..|rest[0]|];
    }
  }

  /** `sep` occurs in `t` starting at position `i`. */
  predicate OccursAt(t: string, i: nat, sep: string)
  {
    i + |sep| <= |t| && t[i..i + |sep|] == sep
  }

  /** No occurrence of `sep` lies inside `t`. */
  predicate Free(t: string, sep: string)
  {
    forall i: nat :: i < |t| ==> !OccursAt(t, i, sep)
  }

  /** A character put in front of a free string keeps it free unless an occurrence starts at it. */
  lemma FreeCons(c: char, t: string, sep: string)
    requires Free(t, sep) && !OccursAt([c] + t, 0, sep)
    ensures Free([c] + t, sep)
  {
    var u := [c] + t;
    forall i: nat | 0 < i < |u|
      ensures !OccursAt(u, i, sep)
    {
      assert !OccursAt(t, i - 1, sep);
      if i + |sep| <= |u| {
        assert u[i..i + |sep|] == t[i - 1..i - 1 + |sep|];
      }
    }
  }

  /** No piece of the split holds the separator. */
  lemma {:induction false} SplitPiecesFree(s: string, sep: string)
    requires sep != []
    ensures forall k :: 0 <= k < |Split(s, sep)| ==> Free(Split(s, sep)[k], sep)
    decreases |s|
  {
    var pieces := Split(s, sep);
    if |s| < |sep| {
    } else if s[..|sep|] == sep {
      var rest := Split(s[|sep|..], sep);
      SplitPiecesFree(s[|sep|..], sep);
      assert pieces == [""] + rest;
      forall k | 0 < k < |pieces|
        ensures Free(pieces[k], sep)
      {
        assert pieces[k] == rest[k - 1];
        assert Free(rest[k - 1], sep);
      }
    } else {
      var rest := Split(s[1..], sep);
      SplitPiecesFree(s[1..], sep);
      SplitFirstIsPrefix(s[1..], sep);
      var first := [s[0]] + rest[0];
      assert pieces == [first] + rest[1..];
      assert first == s[..|first|];
      if |sep| <= |first| {
        assert first[0..|sep|] == s[..|sep|];
      }
      FreeCons(s[0], rest[0], sep);
      forall k | 0 < k < |pieces|
        ensures Free(pieces[k], sep)
      {
        assert pieces[k] == rest[k];
      }
    }
  }

  /** The first piece ends no later than the leftmost occurrence of the separator. */
  lemma {:induction false} SplitFirstClear(s: string, sep: string)
    requires sep != []
    ensures forall i: nat :: i < |Split(s, sep)[0]| ==> !OccursAt(s, i, sep)
    decreases |s|
  {
    if |s| >= |sep| && s[..|sep|] != sep {
      var tail := s[1..];
      var rest := Split(tail, sep);
      SplitFirstClear(tail, sep);
      var first := [s[0]] + rest[0];
      assert Split(s, sep)[0] == first;
      forall i: nat | 0 < i < |first|
        ensures !OccursAt(s, i, sep)
      {
        assert !OccursAt(tail, i - 1, sep);
        if i + |sep| <= |s| {
          assert s[i..i + |sep|] == tail[i - 1..i - 1 + |sep|];
        }
      }
      assert !OccursAt(s, 0, sep);
    }
  }

  /**
    Where the first piece ends: at the end of the string when it is the only
    piece, and otherwise at an occurrence of the separator, after which the
    remaining pieces are the split of the rest. With SplitFirstClear the cut
    is always at the leftmost occurrence, overlapping separators included;
    with JoinSplit as well, which gives the pieces' characters, this
    determines Split completely.
  */
  lemma {:induction false} SplitCut(s: string, sep: string)
    requires sep != []
    ensures |Split(s, sep)| == 1 ==> Split(s, sep)[0] == s
    ensures |Split(s, sep)| > 1 ==>
      && OccursAt(s, |Split(s, sep)[0]|, sep)
      && Split(s, sep)[1..] == Split(s[|Split(s, sep)[0]| + |sep|..], sep)
    decreases |s|
  {
    var pieces := Split(s, sep);
    if |s| < |sep| {
    } else if s[..|sep|] == sep {
      assert pieces == [""] + Split(s[|sep|..], sep);
      assert OccursAt(s, 0, sep);
    } else {
      var tail := s[1..];
      var rest := Split(tail, sep);
      SplitCut(tail, sep);
      var first := [s[0]] + rest[0];
      assert pieces == [first] + rest[1..];
      if |rest| > 1 {
        var m := |rest[0]|;
        assert OccursAt(tail, m, sep);
        assert s[m + 1..m + 1 + |sep|] == tail[m..m + |sep|];
        assert tail[m + |sep|..] == s[|first| + |sep|..];
        assert pieces[1..] == rest[1..];
      } else {
        assert s == [s[0]] + tail;
      }
    }
  }

  /** Prefixing a character to the first piece prefixes it to the joined string. */
  lemma JoinConsFirst(c: char, pieces: seq<string>, sep: string)
    requires |pieces| >= 1
    ensures Join([[c] + pieces[0]] + pieces[1..], sep) == [c] + Join(pieces, sep)
  {
    var moved := [[c] + pieces[0]] + pieces[1..];
    if |pieces| > 1 {
      assert moved[1..] == pieces[1..];
    }
  }

  /** A string without the separator's first character is a single piece. */
  lemma {:induction false} SplitWithout(a: string, sep: string)
    requires sep != [] && forall i :: 0 <= i < |a| ==> a[i] != sep[0]
    ensures Split(a, sep) == [a]
    decreases |a|
  {
    if |a| >= |sep| {
      assert a[..|sep|][0] == a[0];
      SplitWithout(a[1..], sep);
      assert [a[0]] + a[1..] == a;
    }
  }

  /** A first piece free of the separator's first character is cut off at the first separator. */
  lemma {:induction false} SplitAt(a: string, sep: string, b: string)
    requires sep != [] && forall i :: 0 <= i < |a| ==> a[i] != sep[0]
    ensures Split(a + sep + b, sep) == [a] + Split(b, sep)
    decreases |a|
  {
    var s := a + sep + b;
    if a == [] {
      assert s[..|sep|] == sep;
      assert s[|sep|..] == b;
    } else {
      assert s[..|sep|][0] == a[0];
      assert s[1..] == a[1..] + sep + b;
      SplitAt(a[1..], sep, b);
      assert [a[0]] + a[1..] == a;
    }
  }

  /** Splitting `a + sep + b`, neither part holding the separator's first character, gives the two parts. */
  lemma SplitOnce(a: string, sep: string, b: string)
    requires sep != []
    requires forall i :: 0 <= i < |a| ==> a[i] != sep[0]
    requires forall i :: 0 <= i < |b| ==> b[i] != sep[0]
    ensures Split(a + sep + b, sep) == [a, b]
  {
    SplitAt(a, sep, b);
    SplitWithout(b, sep);
  }

  /** Leading whitespace ends exactly at the first other character. */
  lemma TrimStartExact(s: string, i: nat)
    requires i < |s| && !IsSpace(s[i])
    requires forall k :: 0 <= k < i ==> IsSpace(s[k])
    ensures TrimStart(s) == s[i..]
  {
    var front := TrimStart(s);
    assert |s| - |front| <= i;
    assert front[0] == s[|s| - |front|];
  }

  /** Trailing whitespace starts exactly after the last other character. */
  lemma TrimEndExact(s: string, j: nat)
    requires 0 < j <= |s| && !IsSpace(s[j - 1])
    requires forall k :: j <= k < |s| ==> IsSpace(s[k])
    ensures TrimEnd(s) == s[..j]
  {
    var back := TrimEnd(s);
    assert |back| >= j;
    assert back[|back| - 1] == s[|back| - 1];
  }

  /** Stripping keeps exactly the part between leading and trailing whitespace. */
  lemma StripExact(s: string, i: nat, j: nat)
    requires i < j <= |s|
    requires forall k :: 0 <= k < i ==> IsSpace(s[k])
    requires forall k :: j <= k < |s| ==> IsSpace(s[k])
    requires !IsSpace(s[i]) && !IsSpace(s[j - 1])
    ensures Strip(s) == s[i..j]
  {
    var front := s[i..];
    calc {
      Strip(s);
      TrimEnd(TrimStart(s));
      { TrimStartExact(s, i); }
      TrimEnd(front);
      { assert forall k :: j - i <= k < |front| ==> IsSpace(front[k]);
        TrimEndExact(front, j - i); }
      front[..j - i];
      s[i..j];
    }
  }

  /** The two character classes the parser searches for. */
  datatype CharClass = Digits | Letters

  predicate InClass(c: char, cls: CharClass)
  {
    match cls
    case Digits => IsDigit(c)
    case Letters => IsLetter(c)
  }

  /** Index of the first character at or after `i` in `cls`, or `|s|` if there is none. */
  function FirstFrom(s: string, i: nat, cls: CharClass): (k: nat)
    requires i <= |s|
    ensures i <= k <= |s|
    ensures k < |s| ==> InClass(s[k], cls)
    ensures forall j :: i <= j < k ==> !InClass(s[j], cls)
    decreases |s| - i
  {
    if i == |s| || InClass(s[i], cls) then i else FirstFrom(s, i + 1, cls)
  }

  /** End of the run of `cls` characters that starts at `i`. */
  function RunEnd(s: string, i: nat, cls: CharClass): (k: nat)
    requires i <= |s|
    ensures i <= k <= |s|
    ensures forall j :: i <= j < k ==> InClass(s[j], cls)
    ensures k < |s| ==> !InClass(s[k], cls)
    decreases |s| - i
  {
    if i < |s| && InClass(s[i], cls) then RunEnd(s, i + 1, cls) else i
  }

  /** Position of a match: `s[start..end]`. */
  datatype Span = Span(start: nat, end: nat)

  /**
    What `re.search` finds for `(\d+)` or `([A-Za-z]+)`: the leftmost
    longest run of characters of the class, or nothing if no character of
    `s` is in the class.
  */
  function Search(s: string, cls: CharClass): (m: Option<Span>)
    ensures m.None? <==> forall j :: 0 <= j < |s| ==> !InClass(s[j], cls)
    ensures m.Some? ==>
      && m.value.start < m.value.end <= |s|
      && (forall j :: 0 <= j < m.value.start ==> !InClass(s[j], cls))
      && (forall j :: m.value.start <= j < m.value.end ==> InClass(s[j], cls))
      && (m.value.end < |s| ==> !InClass(s[m.value.end], cls))
  {
    var start := FirstFrom(s, 0, cls);
    if start == |s| then None else Some(Span(start, RunEnd(s, start, cls)))
  }

  function DigitValue(c: char): nat
    requires IsDigit(c)
  {
    (c as int) - ('0' as int)
  }

  /** `int()` of a run of decimal digits. */
  function DigitsValue(d: string): nat
    requires forall k :: 0 <= k < |d| ==> IsDigit(d[k])
  {
    if d == [] then 0
    else DigitsValue(d[..|d| - 1]) * 10 + DigitValue(d[|d| - 1])
  }

  /** One `+`-separated piece: the first digit run is the coefficient, the first letter run the label. */
  function ParseChemical(piece: string): Result<Formula, ParseError>
  {
    var coeff := match Search(piece, Digits)
      case None => 1
      case Some(m) => DigitsValue(piece[m.start..m.end]);
    match Search(piece, Letters)
    case None => Failure(NoLabel(piece))
    case Some(m) => Success(StructuralFormula(piece[m.start..m.end], coeff))
  }

  /**
    A piece fails exactly when it holds no letter, and the error names it;
    a label is a non-empty run of letters; a piece without digits has
    coefficient 1.
  */
  lemma ParseChemicalSpec(piece: string)
    ensures var r := ParseChemical(piece);
      && (r.Failure? <==> forall j :: 0 <= j < |piece| ==> !IsLetter(piece[j]))
      && (r.Failure? ==> r.error == NoLabel(piece))
      && (r.Success? ==>
        && r.value.chemical != []
        && forall k :: 0 <= k < |r.value.chemical| ==> IsLetter(r.value.chemical[k]))
      && (r.Success? && (forall j :: 0 <= j < |piece| ==> !IsDigit(piece[j])) ==> r.value.coefficient == 1)
  {
  }

  /** Parses the pieces in order, stopping at the first piece that has no label. */
  function ParsePieces(pieces: seq<string>): Result<seq<Formula>, ParseError>
  {
    if pieces == [] then Success([])
    else
      match ParseChemical(pieces[0])
      case Failure(e) => Failure(e)
      case Success(f) =>
        match ParsePieces(pieces[1..])
        case Failure(e) => Failure(e)
        case Success(fs) => Success([f] + fs)
  }

  /** A side parses exactly when every piece does, and then yields one formula per piece, in order. */
  lemma {:induction false} ParsePiecesSuccess(pieces: seq<string>)
    ensures ParsePieces(pieces).Success? <==> forall k :: 0 <= k < |pieces| ==> ParseChemical(pieces[k]).Success?
    ensures ParsePieces(pieces).Success? ==>
      && |ParsePieces(pieces).value| == |pieces|
      && forall k :: 0 <= k < |pieces| ==> ParsePieces(pieces).value[k] == ParseChemical(pieces[k]).value
  {
    if pieces != [] {
      ParsePiecesSuccess(pieces[1..]);
    }
  }

  /** A side that fails names the first piece without a label. */
  lemma {:induction false} ParsePiecesFailure(pieces: seq<string>)
    ensures ParsePieces(pieces).Failure? ==> exists k ::
      && 0 <= k < |pieces|
      && ParseChemical(pieces[k]).Failure?
      && ParsePieces(pieces).error == NoLabel(pieces[k])
      && forall j :: 0 <= j < k ==> ParseChemical(pieces[j]).Success?
  {
    if pieces != [] && ParseChemical(pieces[0]).Success? && ParsePieces(pieces[1..]).Failure? {
      var rest := pieces[1..];
      ParsePiecesFailure(rest);
      var k :| 0 <= k < |rest| && ParseChemical(rest[k]).Failure?
        && ParsePieces(rest).error == NoLabel(rest[k])
        && forall j :: 0 <= j < k ==> ParseChemical(rest[j]).Success?;
      assert ParseChemical(pieces[k + 1]).Failure?;
    }
  }

  /**
    A side parses exactly when every piece does; it then yields one formula
    per piece, in order; otherwise the error names the first piece without
    a label.
  */
  lemma ParsePiecesSpec(pieces: seq<string>)
    ensures ParsePieces(pieces).Success? <==> forall k :: 0 <= k < |pieces| ==> ParseChemical(pieces[k]).Success?
    ensures ParsePieces(pieces).Success? ==>
      && |ParsePieces(pieces).value| == |pieces|
      && forall k :: 0 <= k < |pieces| ==> ParsePieces(pieces).value[k] == ParseChemical(pieces[k]).value
    ensures ParsePieces(pieces).Failure? ==> exists k ::
      && 0 <= k < |pieces|
      && ParseChemical(pieces[k]).Failure?
      && ParsePieces(pieces).error == NoLabel(pieces[k])
      && forall j :: 0 <= j < k ==> ParseChemical(pieces[j]).Success?
  {
    ParsePiecesSuccess(pieces);
    ParsePiecesFailure(pieces);
  }

  /** One side of an equation, as the spec of `Reaction.parseRxn`. */
  function ParseSide(eqn: string): Result<seq<Formula>, ParseError>
  {
    ParsePieces(Split(Strip(eqn), "+"))
  }

  /** Prefixes the formulas parsed so far to the outcome of parsing the rest. */
  function Prepend(done: seq<Formula>, rest: Result<seq<Formula>, ParseError>): Result<seq<Formula>, ParseError>
  {
    match rest
    case Success(fs) => Success(done + fs)
    case Failure(e) => Failure(e)
  }

  lemma PrependNothing(r: Result<seq<Formula>, ParseError>)
    ensures Prepend([], r) == r
  {
    if r.Success? {
      assert [] + r.value == r.value;
    }
  }

  lemma PrependStep(done: seq<Formula>, pieces: seq<string>, k: nat)
    requires k < |pieces|
    ensures ParseChemical(pieces[k]).Failure? ==>
      Prepend(done, ParsePieces(pieces[k..])) == Failure(ParseChemical(pieces[k]).error)
    ensures ParseChemical(pieces[k]).Success? ==>
      Prepend(done, ParsePieces(pieces[k..]))
        == Prepend(done + [ParseChemical(pieces[k]).value], ParsePieces(pieces[k + 1..]))
  {
    assert pieces[k..][1..] == pieces[k + 1..];
    var rest := ParsePieces(pieces[k + 1..]);
    if ParseChemical(pieces[k]).Success? && rest.Success? {
      var f := ParseChemical(pieces[k]).value;
      assert done + ([f] + rest.value) == (done + [f]) + rest.value;
    }
  }

  /**
    Reaction.parseRxn: strips, splits on `+` and appends one structural
    formula per piece, raising at the first piece without a label.
  */
  method ParseRxn(eqn: string) returns (res: Result<seq<Formula>, ParseError>)
    ensures res == ParseSide(eqn)
  {
    var chemicals := Split(Strip(eqn), "+");
    var structuralFormulas: seq<Formula> := [];
    var k := 0;
    assert chemicals[k..] == chemicals;
    PrependNothing(ParsePieces(chemicals));
    while k < |chemicals|
      invariant 0 <= k <= |chemicals|
      invariant ParsePieces(chemicals) == Prepend(structuralFormulas, ParsePieces(chemicals[k..]))
    {
      PrependStep(structuralFormulas, chemicals, k);
      var parsed := ParseChemical(chemicals[k]);
      if parsed.Failure? {
        res := Failure(parsed.error);
        assert res == ParsePieces(chemicals);
        return;
      }
      structuralFormulas := structuralFormulas + [parsed.value];
      k := k + 1;
    }
    assert chemicals[k..] == [];
    assert structuralFormulas + [] == structuralFormulas;
    res := Success(structuralFormulas);
    assert res == ParsePieces(chemicals);
  }

  /** The whole equation, as the spec of `Reaction.parseFullRxn`. */
  function ParseEquation(equation: string): Result<(seq<Formula>, seq<Formula>), ParseError>
  {
    var sides := Split(Strip(equation), "->");
    if |sides| != 2 then Failure(SideCount(|sides|))
    else
      match ParseSide(sides[0])
      case Failure(e) => Failure(e)
      case Success(reactants) =>
        match ParseSide(sides[1])
        case Failure(e) => Failure(e)
        case Success(products) => Success((reactants, products))
  }

  /**
    An equation fails on its shape exactly when it does not split into two
    sides on `->`. It parses exactly when it has two sides and both parse,
    and then the reactants and products are the two sides parsed in order.
    Any other failure is the reactants' error when they fail, and otherwise
    the products'.
  */
  lemma ParseEquationSpec(equation: string)
    ensures var r := ParseEquation(equation);
      r.Failure? && r.error.SideCount? <==> |Split(Strip(equation), "->")| != 2
    ensures var r := ParseEquation(equation);
      var sides := Split(Strip(equation), "->");
      r.Success? <==> |sides| == 2 && ParseSide(sides[0]).Success? && ParseSide(sides[1]).Success?
    ensures var r := ParseEquation(equation);
      var sides := Split(Strip(equation), "->");
      r.Success? ==> |sides| == 2 && ParseSide(sides[0]) == Success(r.value.0) && ParseSide(sides[1]) == Success(r.value.1)
    ensures var r := ParseEquation(equation);
      var sides := Split(Strip(equation), "->");
      r.Failure? && !r.error.SideCount? ==>
        && |sides| == 2
        && r.error.NoLabel?
        && r.error == (if ParseSide(sides[0]).Failure? then ParseSide(sides[0]).error else ParseSide(sides[1]).error)
  {
    var sides := Split(Strip(equation), "->");
    if |sides| == 2 {
      ParsePiecesSpec(Split(Strip(sides[0]), "+"));
      ParsePiecesSpec(Split(Strip(sides[1]), "+"));
    }
  }

  /**
    Reaction.parseFullRxn: strips the equation, unpacks its split on `->`
    into reactants and products (failing unless there are exactly two),
    and parses the reactants, then the products.
  */
  method ParseFullRxn(equation: string) returns (res: Result<(seq<Formula>, seq<Formula>), ParseError>)
    ensures res == ParseEquation(equation)
  {
    var sides := Split(Strip(equation), "->");
    if |sides| != 2 {
      return Failure(SideCount(|sides|));
    }
    var reactants := ParseRxn(sides[0]);
    if reactants.Failure? {
      return Failure(reactants.error);
    }
    var products := ParseRxn(sides[1]);
    if products.Failure? {
      return Failure(products.error);
    }
    res := Success((reactants.value, products.value));
  }

  lemma TrailingPlusStrip(x: char)
    requires IsLetter(x)
    ensures Strip([x, '+']) == [x] + "+" + ""
  {
    StripExact([x, '+'], 0, 2);
    assert [x, '+'][0..2] == [x] + "+" + "";
  }

  lemma TrailingPlusPieces(x: char)
    requires IsLetter(x)
    ensures Split([x] + "+" + "", "+") == [[x], ""]
    ensures ParsePieces([[x], ""]) == Failure(NoLabel(""))
  {
    SplitOnce([x], "+", "");
    ParseChemicalSpec([x]);
    ParseChemicalSpec("");
    assert [[x], ""][1..] == [""];
    assert [""][1..] == [];
  }

  /** A trailing `+` leaves an empty piece, which has no label: `x+` fails on the empty piece. */
  lemma TrailingPlusFails(x: char)
    requires IsLetter(x)
    ensures ParseSide([x, '+']) == Failure(NoLabel(""))
  {
    TrailingPlusStrip(x);
    TrailingPlusPieces(x);
  }
}

/** The pattern AST (`PatternElement`, `Pattern`, `CompositeOperator`) and its
    compiler to a regex string, `Pattern::to_regex`. */
module Patterns {
  import opened Wrappers
  import opened Text

  /** Rust's `u32`, the type of a gap's word bounds. */
  newtype u32 = x: int | 0 <= x < 0x1_0000_0000

  datatype PatternElement =
    | Word(text: string)
    | Gap(minWords: u32, maxWords: Option<u32>)
    | Reference(patternId: string)
    | OneOf(options: seq<string>)

  datatype CompositeOperator = And | Or | Not

  datatype Pattern =
    | Sequence(id: string, name: string, elements: seq<PatternElement>)
    | Composite(id: string, name: string, op: CompositeOperator, patterns: seq<Pattern>)

  /** `regex::escape`, whose definition belongs to the regex crate: every
      operation that needs it takes it as a parameter, so everything proved
      here holds for any escaping function. */
  type Escaper = string -> string

  /** The repeated unit of a bounded gap: non-word characters, then a word. */
  const GapUnit: string := "(?:\\W+\\w+)"

  /** The gap `Gap{0, None}` that the segmenter puts between two runs. */
  const OpenGap: PatternElement := Gap(0, None)

  /** `Pattern::get_id`: the id of either kind of pattern. */
  function GetId(p: Pattern): (id: string)
    ensures id == p.id
  {
    match p
    case Sequence(id, _, _) => id
    case Composite(id, _, _, _) => id
  }

  /** `Pattern::get_name`: the name of either kind of pattern. */
  function GetName(p: Pattern): (name: string)
    ensures name == p.name
  {
    match p
    case Sequence(_, name, _) => name
    case Composite(_, name, _, _) => name
  }

  /** The regex of one element of a Sequence. A word, a phrase and a OneOf
      are anchored with `\b` at both ends. */
  function ElementRegex(e: PatternElement, escape: Escaper): (r: string)
    ensures e.Word? || e.OneOf? ==> |r| >= 4 && r[..2] == "\\b" && r[|r| - 2..] == "\\b"
  {
    match e
    case Word(text) =>
      if ' ' in text then "\\b" + escape(text) + "\\b"
      else "\\b" + escape(text) + "\\b"
    case Gap(minWords, maxWords) =>
      if minWords == 0 && maxWords.None? then ".*?"
      else (
        match maxWords
        case Some(max) => GapUnit + "{" + Decimal(minWords as nat) + "," + Decimal(max as nat) + "}"
        case None => GapUnit + "{" + Decimal(minWords as nat) + ",}")
    case OneOf(options) =>
      "\\b(?:" + Join("|", seq(|options|, i requires 0 <= i < |options| => escape(options[i]))) + ")\\b"
    case Reference(_) => ".*"
  }

  /** The regexes of a list of elements, concatenated with no separator. */
  function ElementsRegex(es: seq<PatternElement>, escape: Escaper): string {
    Join("", seq(|es|, i requires 0 <= i < |es| => ElementRegex(es[i], escape)))
  }

  /** `Pattern::to_regex`. A non-empty Not is a single negative lookahead. */
  function ToRegex(p: Pattern, escape: Escaper): (r: string)
    ensures p.Composite? && p.op == Not && |p.patterns| > 0 ==> |r| >= 6 && r[..5] == "(?!.*" && r[|r| - 1] == ')'
    decreases p
  {
    match p
    case Sequence(_, _, elements) => ElementsRegex(elements, escape)
    case Composite(_, _, op, ps) =>
      match op
      case Or => Join("|", seq(|ps|, i requires 0 <= i < |ps| => "(" + ToRegex(ps[i], escape) + ")"))
      case And => Join("", seq(|ps|, i requires 0 <= i < |ps| => "(?=.*" + ToRegex(ps[i], escape) + ")")) + ".*"
      case Not => if |ps| > 0 then "(?!.*" + ToRegex(ps[0], escape) + ")" else ""
  }

  // ----- What each element compiles to -----

  /** The element rules of `to_regex`: a word or phrase is escaped as one
      literal and anchored at its outer edges only, whether or not it holds a
      space; `Gap{0, None}` is the lazy wildcard; any other gap is a counted
      repetition of `GapUnit` (bounds are not checked against each other); a
      OneOf is an anchored non-capturing alternation of the escaped options;
      a Reference is the unresolved wildcard `.*`. */
  lemma ElementCompilation(e: PatternElement, escape: Escaper)
    ensures e.Word? ==> ElementRegex(e, escape) == "\\b" + escape(e.text) + "\\b"
    ensures e == OpenGap ==> ElementRegex(e, escape) == ".*?"
    ensures e.Gap? && e.maxWords.Some? ==>
      ElementRegex(e, escape) == GapUnit + "{" + Decimal(e.minWords as nat) + "," + Decimal(e.maxWords.value as nat) + "}"
    ensures e.Gap? && e.maxWords.None? && e.minWords > 0 ==>
      ElementRegex(e, escape) == GapUnit + "{" + Decimal(e.minWords as nat) + ",}"
    ensures e.OneOf? ==> ElementRegex(e, escape) == "\\b(?:" + Join("|", Map(escape, e.options)) + ")\\b"
    ensures e.OneOf? && |e.options| == 1 ==> ElementRegex(e, escape) == "\\b(?:" + escape(e.options[0]) + ")\\b"
    ensures e.Reference? ==> ElementRegex(e, escape) == ".*"
  {
    if e.OneOf? {
      assert seq(|e.options|, i requires 0 <= i < |e.options| => escape(e.options[i])) == Map(escape, e.options);
    }
  }

  /** Reads the bounds back out of a counted gap `(?:\W+\w+){m,n}` or `{m,}`. */
  function ParseGap(r: string): Option<(nat, Option<nat>)> {
    var open := GapUnit + "{";
    if |r| < |open| || r[..|open|] != open then None
    else ParseBounds(r[|open|..])
  }

  /** Reads `m,n}` or `m,}` with `m` and `n` decimal numerals. */
  function ParseBounds(t: string): Option<(nat, Option<nat>)> {
    var a := DigitPrefix(t);
    if a == 0 || a == |t| || t[a] != ',' then None
    else
      var u := t[a + 1..];
      var b := DigitPrefix(u);
      if u[b..] != "}" then None
      else Some((ParseDecimal(t[..a]), if b == 0 then None else Some(ParseDecimal(u[..b]))))
  }

  /** A numeral followed by the non-digit `c` splits there. */
  lemma NumeralThen(d: string, c: char, rest: string)
    requires AllDigits(d) && !IsDigit(c)
    ensures var t := d + [c] + rest;
      DigitPrefix(t) == |d| && t[..|d|] == d && t[|d|] == c && t[|d| + 1..] == rest
  {
    var t := d + [c] + rest;
    assert t == d + ([c] + rest);
    DigitPrefixOfNumeral(d, [c] + rest);
  }

  lemma ParseBoundsOfNumerals(d: string, x: string)
    requires |d| > 0 && AllDigits(d) && AllDigits(x)
    ensures ParseBounds(d + "," + x + "}")
         == Some((ParseDecimal(d), if x == [] then None else Some(ParseDecimal(x))))
  {
    NumeralThen(d, ',', x + "}");
    assert d + "," + x + "}" == d + [','] + (x + "}");
    NumeralThen(x, '}', "");
    assert x + "}" == x + ['}'] + "";
  }

  /** `ParseGap` reads the two numerals of a counted gap back. */
  lemma ParseGapOfNumerals(d: string, x: string)
    requires |d| > 0 && AllDigits(d) && AllDigits(x)
    ensures ParseGap(GapUnit + "{" + d + "," + x + "}")
         == Some((ParseDecimal(d), if x == [] then None else Some(ParseDecimal(x))))
  {
    var open := GapUnit + "{";
    var t := d + "," + x + "}";
    var r := GapUnit + "{" + d + "," + x + "}";
    assert r == open + t;
    assert r[..|open|] == open && r[|open|..] == t;
    ParseBoundsOfNumerals(d, x);
  }

  /** A gap other than `Gap{0, None}` compiles to a quantifier from which both
      of its bounds can be read back (so no two such gaps share a regex),
      whatever the bounds, `m > n` included; `Gap{0, None}` compiles to the
      lazy wildcard, which is no counted gap at all. */
  lemma GapRoundTrip(m: u32, max: Option<u32>, escape: Escaper)
    ensures m == 0 && max.None? ==> ParseGap(ElementRegex(Gap(m, max), escape)) == None
    ensures !(m == 0 && max.None?) ==>
      ParseGap(ElementRegex(Gap(m, max), escape)) == Some((m as nat, if max.Some? then Some(max.value as nat) else None))
  {
    if !(m == 0 && max.None?) {
      DecimalRoundTrip(m as nat);
      match max
      case Some(n) =>
        assert ElementRegex(Gap(m, max), escape) == GapUnit + "{" + Decimal(m as nat) + "," + Decimal(n as nat) + "}";
        ParseGapOfNumerals(Decimal(m as nat), Decimal(n as nat));
        DecimalRoundTrip(n as nat);
      case None =>
        assert ElementRegex(Gap(m, max), escape) == GapUnit + "{" + Decimal(m as nat) + "," + "" + "}";
        ParseGapOfNumerals(Decimal(m as nat), "");
    }
  }

  // ----- Sequences -----

  lemma {:induction false} ElementsRegexAppend(a: seq<PatternElement>, b: seq<PatternElement>, escape: Escaper)
    ensures ElementsRegex(a + b, escape) == ElementsRegex(a, escape) + ElementsRegex(b, escape)
  {
    var f := (e: PatternElement) => ElementRegex(e, escape);
    var sa := seq(|a|, i requires 0 <= i < |a| => ElementRegex(a[i], escape));
    var sb := seq(|b|, i requires 0 <= i < |b| => ElementRegex(b[i], escape));
    var sab := seq(|a + b|, i requires 0 <= i < |a + b| => ElementRegex((a + b)[i], escape));
    assert sab == sa + sb;
    JoinEmptySeparatorAppend(sa, sb);
  }

  lemma ElementsRegexOne(e: PatternElement, escape: Escaper)
    ensures ElementsRegex([e], escape) == ElementRegex(e, escape)
  {
    assert seq(1, i requires 0 <= i < 1 => ElementRegex([e][i], escape)) == [ElementRegex(e, escape)];
  }

  /** A Sequence compiles to the in-order concatenation of its elements'
      regexes with nothing in between: splitting the element list splits the
      regex, the empty Sequence compiles to "", and a one-element Sequence
      compiles to that element's regex. */
  lemma SequenceRegexAppend(id: string, name: string, a: seq<PatternElement>, b: seq<PatternElement>, escape: Escaper)
    ensures ToRegex(Sequence(id, name, a + b), escape)
         == ToRegex(Sequence(id, name, a), escape) + ToRegex(Sequence(id, name, b), escape)
    ensures ToRegex(Sequence(id, name, []), escape) == ""
    ensures |a| == 1 ==> ToRegex(Sequence(id, name, a), escape) == ElementRegex(a[0], escape)
  {
    ElementsRegexAppend(a, b, escape);
  }

  // ----- Composites -----

  /** The parenthesised regexes that an Or joins with `|`. */
  function OrBranches(ps: seq<Pattern>, escape: Escaper): seq<string> {
    Map((p: Pattern) => "(" + ToRegex(p, escape) + ")", ps)
  }

  /** The lookaheads that an And concatenates before its `.*`. */
  function Lookaheads(ps: seq<Pattern>, escape: Escaper): seq<string> {
    Map((p: Pattern) => "(?=.*" + ToRegex(p, escape) + ")", ps)
  }

  lemma CompositeRegex(id: string, name: string, ps: seq<Pattern>, escape: Escaper)
    ensures ToRegex(Composite(id, name, Or, ps), escape) == Join("|", OrBranches(ps, escape))
    ensures ToRegex(Composite(id, name, And, ps), escape) == Join("", Lookaheads(ps, escape)) + ".*"
  {
    var ors := seq(|ps|, i requires 0 <= i < |ps| => "(" + ToRegex(ps[i], escape) + ")");
    var ands := seq(|ps|, i requires 0 <= i < |ps| => "(?=.*" + ToRegex(ps[i], escape) + ")");
    assert ors == OrBranches(ps, escape);
    assert ands == Lookaheads(ps, escape);
  }

  lemma BranchesCons(p: Pattern, qs: seq<Pattern>, escape: Escaper)
    ensures OrBranches([p] + qs, escape) == ["(" + ToRegex(p, escape) + ")"] + OrBranches(qs, escape)
    ensures Lookaheads([p] + qs, escape) == ["(?=.*" + ToRegex(p, escape) + ")"] + Lookaheads(qs, escape)
  {
    MapCons((p: Pattern) => "(" + ToRegex(p, escape) + ")", p, qs);
    MapCons((p: Pattern) => "(?=.*" + ToRegex(p, escape) + ")", p, qs);
  }

  /** Or: each sub-pattern's regex in parentheses, joined by `|`; peeling off
      the first sub-pattern leaves the Or of the others behind one `|`. */
  lemma OrRegexCons(id: string, name: string, p: Pattern, qs: seq<Pattern>, escape: Escaper)
    ensures ToRegex(Composite(id, name, Or, []), escape) == ""
    ensures ToRegex(Composite(id, name, Or, [p] + qs), escape)
         == "(" + ToRegex(p, escape) + ")"
          + (if qs == [] then "" else "|" + ToRegex(Composite(id, name, Or, qs), escape))
  {
    CompositeRegex(id, name, [], escape);
    CompositeRegex(id, name, [p] + qs, escape);
    CompositeRegex(id, name, qs, escape);
    BranchesCons(p, qs, escape);
    if qs != [] {
      JoinAppend("|", ["(" + ToRegex(p, escape) + ")"], OrBranches(qs, escape));
    }
  }

  /** And: one positive lookahead `(?=.*r)` per sub-pattern, in order, then a
      trailing `.*`; the And of no sub-pattern is `.*` alone. */
  lemma AndRegexCons(id: string, name: string, p: Pattern, qs: seq<Pattern>, escape: Escaper)
    ensures ToRegex(Composite(id, name, And, []), escape) == ".*"
    ensures ToRegex(Composite(id, name, And, [p] + qs), escape)
         == "(?=.*" + ToRegex(p, escape) + ")" + ToRegex(Composite(id, name, And, qs), escape)
  {
    CompositeRegex(id, name, [], escape);
    CompositeRegex(id, name, [p] + qs, escape);
    CompositeRegex(id, name, qs, escape);
    BranchesCons(p, qs, escape);
    JoinEmptySeparatorAppend(["(?=.*" + ToRegex(p, escape) + ")"], Lookaheads(qs, escape));
  }

  /** Not: a negative lookahead on the first sub-pattern only; every later
      sub-pattern is ignored, and the empty Not compiles to "". */
  lemma NotRegexFirstOnly(id: string, name: string, p: Pattern, rest: seq<Pattern>, escape: Escaper)
    ensures ToRegex(Composite(id, name, Not, []), escape) == ""
    ensures ToRegex(Composite(id, name, Not, [p] + rest), escape) == "(?!.*" + ToRegex(p, escape) + ")"
    ensures ToRegex(Composite(id, name, Not, [p] + rest), escape) == ToRegex(Composite(id, name, Not, [p]), escape)
  {
  }

  /** Neither the id nor the name of a pattern takes part in its regex. */
  lemma IdentityIrrelevant(p: Pattern, id: string, name: string, escape: Escaper)
    ensures var q := match p
                     case Sequence(_, _, es) => Sequence(id, name, es)
                     case Composite(_, _, op, ps) => Composite(id, name, op, ps);
            GetId(q) == id && GetName(q) == name && ToRegex(q, escape) == ToRegex(p, escape)
  {
  }

  /** `Or[Sequence(Word "cat"), Sequence(Word "dog")]` compiles to
      `(\bcat\b)|(\bdog\b)`, for an escape that leaves both words alone. */
  lemma OrExample(escape: Escaper)
    requires escape("cat") == "cat" && escape("dog") == "dog"
    ensures ToRegex(Composite("o", "either", Or, [Sequence("c", "cat", [Word("cat")]), Sequence("d", "dog", [Word("dog")])]), escape)
         == "(\\bcat\\b)|(\\bdog\\b)"
  {
    var c := Sequence("c", "cat", [Word("cat")]);
    var d := Sequence("d", "dog", [Word("dog")]);
    WordExample("c", "cat", "cat", escape);
    WordExample("d", "dog", "dog", escape);
    OrRegexCons("o", "either", d, [], escape);
    assert [c, d] == [c] + [d];
    var rd := ToRegex(Composite("o", "either", Or, [d]), escape);
    assert rd == "(" + "\\bdog\\b" + ")";
    OrRegexCons("o", "either", c, [d], escape);
    assert ToRegex(Composite("o", "either", Or, [c, d]), escape) == "(" + "\\bcat\\b" + ")" + ("|" + rd);
    OrLiteral();
  }

  lemma OrLiteral()
    ensures "(" + "\\bcat\\b" + ")" + ("|" + ("(" + "\\bdog\\b" + ")")) == "(\\bcat\\b)|(\\bdog\\b)"
  {
  }

  /** `And[Sequence(Word "cat"), Sequence(Word "dog")]` compiles to
      `(?=.*\bcat\b)(?=.*\bdog\b).*`: the lookaheads close right after each
      sub-pattern's regex. */
  lemma AndExample(escape: Escaper)
    requires escape("cat") == "cat" && escape("dog") == "dog"
    ensures var r := ToRegex(Composite("a", "both", And, [Sequence("c", "cat", [Word("cat")]), Sequence("d", "dog", [Word("dog")])]), escape);
            r == "(?=.*\\bcat\\b)(?=.*\\bdog\\b).*"
  {
    var c := Sequence("c", "cat", [Word("cat")]);
    var d := Sequence("d", "dog", [Word("dog")]);
    WordExample("c", "cat", "cat", escape);
    WordExample("d", "dog", "dog", escape);
    AndRegexCons("a", "both", d, [], escape);
    assert [c, d] == [c] + [d];
    AndRegexCons("a", "both", c, [d], escape);
    AndLiteral();
  }

  lemma AndLiteral()
    ensures var r := "(?=.*" + "\\bcat\\b" + ")" + ("(?=.*" + "\\bdog\\b" + ")" + ".*");
      r == "(?=.*\\bcat\\b)(?=.*\\bdog\\b).*"
  {
  }

  /** A one-word Sequence whose word the escape leaves alone. */
  lemma WordExample(id: string, name: string, w: string, escape: Escaper)
    requires escape(w) == w
    ensures ToRegex(Sequence(id, name, [Word(w)]), escape) == "\\b" + w + "\\b"
  {
    SequenceRegexAppend(id, name, [Word(w)], [], escape);
  }
}

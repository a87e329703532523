/**
 The prefix pattern of the subtree delete (backend/internal/store/chapters.go):
 `path LIKE escapeLike(p) || '%' ESCAPE '\'`. LIKE follows section 8.5 of
 ISO/IEC 9075:1992: `%` stands for any run of characters, `_` for exactly one,
 and the escape character makes the next character stand for itself.
 */
module LikePattern {
  import opened Wrappers

  datatype Element = Literal(c: char) | AnyOne | AnyRun

  /** The pattern's elements; None when it ends in a lone escape character. */
  function Parse(pattern: string): Option<seq<Element>> {
    if pattern == "" then Some([])
    else if pattern[0] == '\\' then
      if |pattern| == 1 then None
      else Prepend(Literal(pattern[1]), Parse(pattern[2..]))
    else Prepend(
      if pattern[0] == '%' then AnyRun else if pattern[0] == '_' then AnyOne else Literal(pattern[0]),
      Parse(pattern[1..]))
  }

  function Prepend(e: Element, rest: Option<seq<Element>>): Option<seq<Element>> {
    match rest case None => None case Some(es) => Some([e] + es)
  }

  predicate Matches(elements: seq<Element>, s: string)
    decreases elements
  {
    if elements == [] then s == ""
    else match elements[0]
      case Literal(c) => s != "" && s[0] == c && Matches(elements[1..], s[1..])
      case AnyOne => s != "" && Matches(elements[1..], s[1..])
      case AnyRun => exists k :: 0 <= k <= |s| && Matches(elements[1..], s[k..])
  }

  predicate Like(s: string, pattern: string) {
    Parse(pattern).Some? && Matches(Parse(pattern).value, s)
  }

  /** `strings.NewReplacer` over the three special characters. */
  function EscapeLike(s: string): string {
    if s == "" then "" else EscapeChar(s[0]) + EscapeLike(s[1..])
  }

  function EscapeChar(c: char): string {
    if c == '\\' || c == '%' || c == '_' then ['\\', c] else [c]
  }

  /** The condition of the DELETE statement, for a row at path q. */
  predicate DeleteMatches(p: string, q: string) {
    q == p || Like(q, EscapeLike(p) + "%")
  }

  function Literals(p: string): seq<Element> {
    seq(|p|, i requires 0 <= i < |p| => Literal(p[i]))
  }

  lemma {:induction false} ParseEscaped(p: string)
    ensures Parse(EscapeLike(p) + "%") == Some(Literals(p) + [AnyRun])
  {
    if p == "" {
      assert EscapeLike(p) + "%" == "%";
      assert "%"[1..] == "";
      assert Literals(p) + [AnyRun] == [AnyRun] + [];
    } else {
      ParseEscaped(p[1..]);
      var rest := EscapeLike(p[1..]) + "%";
      ParseEscapedChar(p[0], rest);
      assert EscapeLike(p) + "%" == EscapeChar(p[0]) + rest;
      assert Literals(p) + [AnyRun] == [Literal(p[0])] + (Literals(p[1..]) + [AnyRun]);
    }
  }

  lemma ParseEscapedChar(c: char, rest: string)
    ensures Parse(EscapeChar(c) + rest) == Prepend(Literal(c), Parse(rest))
  {
    var pattern := EscapeChar(c) + rest;
    assert pattern[|EscapeChar(c)|..] == rest;
  }

  lemma {:induction false} MatchesLiterals(p: string, q: string)
    ensures Matches(Literals(p) + [AnyRun], q) <==> p <= q
  {
    var es := Literals(p) + [AnyRun];
    if p == "" {
      assert es == [AnyRun];
      assert q[|q|..] == "";
      assert Matches(es[1..], q[|q|..]);
    } else {
      assert es[1..] == Literals(p[1..]) + [AnyRun];
      assert p == [p[0]] + p[1..];
      if q != "" {
        assert q == [q[0]] + q[1..];
        MatchesLiterals(p[1..], q[1..]);
        if p <= q {
          assert p[1..] == q[1..][..|p| - 1];
        }
        if q[0] == p[0] && p[1..] <= q[1..] {
          assert q[..|p|] == p;
        }
      }
    }
  }

  /** The delete reaches exactly the rows whose path literally starts with p. */
  lemma DeleteMatchesPrefix(p: string, q: string)
    ensures Like(q, EscapeLike(p) + "%") <==> p <= q
    ensures DeleteMatches(p, q) <==> p <= q
  {
    ParseEscaped(p);
    MatchesLiterals(p, q);
  }

  lemma ParseRun()
    ensures Parse("%") == Some([AnyRun])
  {
    assert "%"[1..] == "";
    assert [AnyRun] + [] == [AnyRun];
  }

  lemma RunMatches(s: string)
    ensures Matches([AnyRun], s)
  {
    assert s[|s|..] == "";
    assert Matches([AnyRun][1..], s[|s|..]);
  }

  /** The wildcards themselves: one character, and any run of them. */
  lemma Wildcards(s: string)
    ensures Like(s, "_") <==> |s| == 1
    ensures Like(s, "%")
  {
    assert "_"[1..] == "" && [AnyOne] + [] == [AnyOne];
    assert Parse("_") == Some([AnyOne]);
    assert s != "" ==> (Matches([AnyOne][1..], s[1..]) <==> s[1..] == "");
    ParseRun();
    RunMatches(s);
  }

  /** Without the escaping, an id made of wildcards would delete unrelated lines. */
  lemma UnescapedOvermatches(c: char)
    requires c != '_'
    ensures Like([c], "_%") && !("_" <= [c])
    ensures !DeleteMatches("_", [c])
  {
    ParseRun();
    assert "_%"[1..] == "%";
    assert Parse("_%") == Some([AnyOne] + [AnyRun]);
    RunMatches([c][1..]);
    assert ([AnyOne] + [AnyRun])[1..] == [AnyRun];
    DeleteMatchesPrefix("_", [c]);
  }
}

/** The names src/topology_controller.cpp gives the engine for ports and links. Lengths make them
    injective for arbitrary ids; a link is named the same from either end. */
module Targets {
  import opened Text

  /** A string behind its length. */
  function Field(text: string): string {
    Decimal(|text|) + [':'] + text
  }

  function PortTarget(port: string): string {
    "port:" + Field(port)
  }

  function OrderedLinkTarget(first: string, second: string): string {
    "link:" + (Field(first) + (":" + Field(second)))
  }

  function LinkTarget(first: string, second: string): string {
    if Less(second, first) then OrderedLinkTarget(second, first) else OrderedLinkTarget(first, second)
  }

  lemma DigitsAreNoColon(n: nat)
    ensures ':' !in Decimal(n)
  {
    assert !IsDigit(':');
  }

  /** A length-prefixed field and what follows it are determined by the whole. */
  lemma FieldInjective(x: string, r: string, y: string, s: string)
    requires Field(x) + r == Field(y) + s
    ensures x == y && r == s
  {
    hide Decimal;
    DigitsAreNoColon(|x|);
    DigitsAreNoColon(|y|);
    assert Field(x) + r == Decimal(|x|) + [':'] + (x + r);
    assert Field(y) + s == Decimal(|y|) + [':'] + (y + s);
    SplitAtFirst(Decimal(|x|), x + r, Decimal(|y|), y + s, ':');
    DecimalInjective(|x|, |y|);
    assert (x + r)[..|x|] == x && (y + s)[..|y|] == y;
    assert (x + r)[|x|..] == r && (y + s)[|y|..] == s;
  }

  lemma PortTargetInjective(p: string, q: string)
    requires PortTarget(p) == PortTarget(q)
    ensures p == q
  {
    hide Field;
    assert PortTarget(p)[5..] == Field(p) + [] && PortTarget(q)[5..] == Field(q) + [];
    FieldInjective(p, [], q, []);
  }

  lemma OrderedLinkInjective(a: string, b: string, c: string, d: string)
    requires OrderedLinkTarget(a, b) == OrderedLinkTarget(c, d)
    ensures a == c && b == d
  {
    hide Field;
    var r, s := ":" + Field(b), ":" + Field(d);
    assert OrderedLinkTarget(a, b)[5..] == Field(a) + r;
    assert OrderedLinkTarget(c, d)[5..] == Field(c) + s;
    FieldInjective(a, r, c, s);
    assert r[1..] == Field(b) + [] && s[1..] == Field(d) + [];
    FieldInjective(b, [], d, []);
  }

  /** Two links share a target exactly when they have the same endpoints, in either order. */
  lemma LinkTargetInjective(a: string, b: string, c: string, d: string)
    ensures LinkTarget(a, b) == LinkTarget(c, d) <==> (a == c && b == d) || (a == d && b == c)
  {
    hide OrderedLinkTarget;
    LessTotal(a, b);
    LessTotal(c, d);
    if LinkTarget(a, b) == LinkTarget(c, d) {
      var x, y := if Less(b, a) then b else a, if Less(b, a) then a else b;
      var z, w := if Less(d, c) then d else c, if Less(d, c) then c else d;
      OrderedLinkInjective(x, y, z, w);
    }
  }

  lemma PortIsNoLink(p: string, a: string, b: string)
    ensures PortTarget(p) != LinkTarget(a, b)
  {
    assert PortTarget(p)[0] == 'p';
    assert LinkTarget(a, b)[0] == 'l';
  }
}

/** A model of Node's `util.format` for string arguments, restricted to the two
    directives the link templates rely on: `%s` (substitute the next argument)
    and `%%` (a literal percent sign). Any other `%x` pair is copied unchanged,
    as Node does for directives it does not recognise. */
module UtilFormat {

  /** True when `s` holds no `%`, so `Expand` copies it verbatim. */
  predicate Literal(s: string) {
    '%' !in s
  }

  /** Expands the directives of template `t` left to right; returns the text
      produced and the arguments no `%s` consumed. A `%s` met after the
      arguments have run out is left as it is. Substituted text is never
      scanned again. */
  function Expand(t: string, args: seq<string>): (string, seq<string>)
    decreases |t|
  {
    if |t| == 0 then ("", args)
    else if t[0] == '%' && |t| >= 2 && t[1] == 's' && |args| > 0 then
      var (s, rest) := Expand(t[2..], args[1..]);
      (args[0] + s, rest)
    else if t[0] == '%' && |t| >= 2 && t[1] == '%' then
      var (s, rest) := Expand(t[2..], args);
      ("%" + s, rest)
    else if t[0] == '%' && |t| >= 2 then
      var (s, rest) := Expand(t[2..], args);
      (t[..2] + s, rest)
    else
      var (s, rest) := Expand(t[1..], args);
      ([t[0]] + s, rest)
  }

  /** Arguments left over after the template are appended, each after one space. */
  function Trailing(rest: seq<string>): string {
    if |rest| == 0 then "" else " " + rest[0] + Trailing(rest[1..])
  }

  /** `util.format(t, args...)`. With no arguments at all Node returns the
      template untouched (not even `%%` is collapsed). */
  function Format(t: string, args: seq<string>): string {
    if |args| == 0 then t
    else
      var (s, rest) := Expand(t, args);
      s + Trailing(rest)
  }

  /** A template without any directive comes back as it is, followed by every
      argument after a space; with no arguments it comes back untouched. */
  lemma FormatLiteral(t: string, args: seq<string>)
    requires Literal(t)
    ensures Format(t, args) == t + Trailing(args)
  {
    LiteralExpandsToItself(t, args);
    assert t + Trailing([]) == t;
  }

  /** A template without directives expands to itself and consumes nothing. */
  lemma LiteralExpandsToItself(t: string, args: seq<string>)
    ensures Literal(t) ==> Expand(t, args) == (t, args)
  {
    if Literal(t) {
      ExpandLiteral(t, "", args);
      assert t + "" == t;
    }
  }

  /** A literal prefix is copied verbatim and consumes no argument. */
  lemma {:induction false} ExpandLiteral(lit: string, t: string, args: seq<string>)
    requires Literal(lit)
    ensures Expand(lit + t, args) == (lit + Expand(t, args).0, Expand(t, args).1)
  {
    var e := Expand(t, args);
    if |lit| > 0 {
      assert lit[0] in lit;
      assert (lit + t)[0] == lit[0];
      assert (lit + t)[1..] == lit[1..] + t;
      assert Literal(lit[1..]) by {
        forall c | c in lit[1..] ensures c in lit { }
      }
      ExpandLiteral(lit[1..], t, args);
      assert [lit[0]] + (lit[1..] + e.0) == lit + e.0;
    } else {
      assert lit + t == t;
      assert lit + e.0 == e.0;
    }
  }

  /** Literal text stays literal when joined. */
  lemma LiteralJoin(a: string, b: string)
    requires Literal(a) && Literal(b)
    ensures Literal(a + b)
  {
  }

  /** A `%s` consumes exactly the next argument and inserts it verbatim. */
  lemma PlaceholderTakesNextArgument(a: string, t: string, args: seq<string>)
    ensures Expand("%s" + t, [a] + args) == (a + Expand(t, args).0, Expand(t, args).1)
  {
  }

  /** The one-directive-after-a-literal step used to unroll a template. */
  lemma LiteralThenPlaceholder(lit: string, a: string, t: string, args: seq<string>)
    requires Literal(lit)
    ensures Expand(lit + ("%s" + t), [a] + args)
         == (lit + (a + Expand(t, args).0), Expand(t, args).1)
  {
    ExpandLiteral(lit, "%s" + t, [a] + args);
    PlaceholderTakesNextArgument(a, t, args);
  }

  /** A template with one `%s` between two literal pieces, given one argument. */
  lemma FillOne(l0: string, l1: string, a: string)
    requires Literal(l0) && Literal(l1)
    ensures Format(l0 + "%s" + l1, [a]) == l0 + a + l1
  {
    ExpandLiteral(l1, "", []);
    assert l1 + "" == l1;
    LiteralThenPlaceholder(l0, a, l1, []);
    assert [a] + [] == [a];
    assert l0 + "%s" + l1 == l0 + ("%s" + l1);
    assert l0 + (a + l1) + "" == l0 + a + l1;
  }

  /** A template with four `%s` between five literal pieces, given four
      arguments: each argument lands in its slot, in order. */
  lemma FillFour(l0: string, l1: string, l2: string, l3: string, l4: string,
                 a0: string, a1: string, a2: string, a3: string)
    requires Literal(l0) && Literal(l1) && Literal(l2) && Literal(l3) && Literal(l4)
    ensures Format(l0 + "%s" + l1 + "%s" + l2 + "%s" + l3 + "%s" + l4, [a0, a1, a2, a3])
         == l0 + a0 + l1 + a1 + l2 + a2 + l3 + a3 + l4
  {
    var t3 := l3 + ("%s" + l4);
    var t2 := l2 + ("%s" + t3);
    var t1 := l1 + ("%s" + t2);
    var t0 := l0 + ("%s" + t1);
    Nests(l0, "%s", l1, "%s", l2, "%s", l3, "%s", l4);
    ExpandLiteral(l4, "", []);
    assert l4 + "" == l4;
    LiteralThenPlaceholder(l3, a3, l4, []);
    assert [a3] + [] == [a3];
    LiteralThenPlaceholder(l2, a2, t3, [a3]);
    assert [a2] + [a3] == [a2, a3];
    LiteralThenPlaceholder(l1, a1, t2, [a2, a3]);
    assert [a1] + [a2, a3] == [a1, a2, a3];
    LiteralThenPlaceholder(l0, a0, t1, [a1, a2, a3]);
    assert [a0] + [a1, a2, a3] == [a0, a1, a2, a3];
    var s := l0 + (a0 + (l1 + (a1 + (l2 + (a2 + (l3 + (a3 + l4)))))));
    assert Expand(t0, [a0, a1, a2, a3]) == (s, []);
    assert s + "" == s;
    Nests(l0, a0, l1, a1, l2, a2, l3, a3, l4);
  }

  /** Re-brackets nine pieces from left to right nesting. */
  lemma Nests<T>(x0: seq<T>, x1: seq<T>, x2: seq<T>, x3: seq<T>, x4: seq<T>,
                 x5: seq<T>, x6: seq<T>, x7: seq<T>, x8: seq<T>)
    ensures x0 + (x1 + (x2 + (x3 + (x4 + (x5 + (x6 + (x7 + x8)))))))
         == x0 + x1 + x2 + x3 + x4 + x5 + x6 + x7 + x8
  {
  }
}

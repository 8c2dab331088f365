/** The offer e-mail template formatter: `{NAME}` placeholders are replaced by the values
    of known names, and every other brace expression is left exactly as written. */
module EmailFormat {
  import opened Wrappers
  import opened Text
  import opened Seqs
  import opened JsonValues

  /** The placeholder dictionary handed to the formatter, name to value. */
  type Placeholders = map<string, Value>

  predicate NoBraces(s: string) {
    '{' !in s && '}' !in s
  }

  /** The placeholder token for `name`: `{NAME}`. */
  function Token(name: string): string {
    "{" + name + "}"
  }

  /** The name between an opening '{' and the first '}' of `u`, which follows it;
      `None` when another '{' or the end of the text comes first. */
  function NameUntilClose(u: string): (r: Option<string>)
    ensures r.Some? ==> NoBraces(r.value) && r.value + "}" <= u
    decreases |u|
  {
    if |u| == 0 then None
    else if u[0] == '}' then Some("")
    else if u[0] == '{' then None
    else match NameUntilClose(u[1..])
      case None => None
      case Some(n) =>
        assert [u[0]] + n + "}" == [u[0]] + (n + "}");
        Some([u[0]] + n)
  }

  /** Substitution of the body: a token whose name is a key of `d` becomes the value's
      text; any other character, including the braces of an unknown, empty or spaced
      name, is copied unchanged. */
  function Substitute(t: string, d: Placeholders): (r: string)
    ensures |d| == 0 ==> r == t
    decreases |t|
  {
    if |t| == 0 then ""
    else
      var r := Emitted(t, d) + Substitute(t[Width(t, d)..], d);
      assert |d| == 0 ==> [t[0]] + t[1..] == t;
      r
  }

  /** What substitution writes for the start of `t`: a known token's value, or the
      first character. */
  function Emitted(t: string, d: Placeholders): string
    requires |t| > 0
  {
    match KnownTokenAt(t, d)
    case Some(n) => Render(d[n])
    case None => [t[0]]
  }

  /** How many characters of `t` that step consumes: the whole token, or one. */
  function Width(t: string, d: Placeholders): (w: nat)
    requires |t| > 0
    ensures 1 <= w <= |t|
  {
    match KnownTokenAt(t, d)
    case Some(n) => |n| + 2
    case None => 1
  }

  /** The known name whose token `t` starts with, if any. */
  function KnownTokenAt(t: string, d: Placeholders): (r: Option<string>)
    ensures r.Some? ==> r.value in d && NoBraces(r.value) && |r.value| + 2 <= |t|
  {
    if |t| > 0 && t[0] == '{' then
      match NameUntilClose(t[1..])
      case Some(n) => if n in d then Some(n) else None
      case None => None
    else None
  }

  /** `format_email`: the greeting and a line break, then the substituted body, then a
      line break and the closing. The greeting and closing are attached as given, with
      no substitution, and each is left out entirely when absent. */
  function FormatEmail(template: string, d: Placeholders, greeting: Option<string>, closing: Option<string>): (r: string)
    ensures greeting.Some? ==> greeting.value + "\n" <= r
    ensures closing.Some? ==> |r| >= |closing.value| + 1 && r[|r| - |closing.value| - 1..] == "\n" + closing.value
    ensures greeting.None? && closing.None? ==> r == Substitute(template, d)
    // between the greeting and the closing sits exactly the substituted template
    ensures |r| == |Head(greeting)| + |Substitute(template, d)| + |Tail(closing)|
    ensures r[|Head(greeting)|..|r| - |Tail(closing)|] == Substitute(template, d)
  {
    Head(greeting) + Substitute(template, d) + Tail(closing)
  }

  lemma {:induction false} NameOfToken(k: string, rest: string)
    requires NoBraces(k)
    ensures NameUntilClose(k + "}" + rest) == Some(k)
    decreases |k|
  {
    var u := k + "}" + rest;
    if |k| > 0 {
      assert u[0] == k[0];
      assert u[1..] == k[1..] + "}" + rest;
      NameOfToken(k[1..], rest);
      assert [k[0]] + k[1..] == k;
    } else {
      assert u[0] == '}';
    }
  }

  /** Text that starts with '{' (or is empty) cannot complete a name begun before it. */
  lemma {:induction false} NameExtend(u: string, b: string)
    requires |b| == 0 || b[0] == '{'
    ensures NameUntilClose(u + b) == NameUntilClose(u)
    decreases |u|
  {
    if |u| > 0 {
      assert (u + b)[0] == u[0];
      assert (u + b)[1..] == u[1..] + b;
      NameExtend(u[1..], b);
    } else {
      assert u + b == b;
    }
  }

  /** Substitution splits at any point where a '{' (or the end) begins. */
  lemma KnownTokenExtend(a: string, b: string, d: Placeholders)
    requires |a| > 0 && (|b| == 0 || b[0] == '{')
    ensures KnownTokenAt(a + b, d) == KnownTokenAt(a, d)
  {
    assert (a + b)[0] == a[0];
    assert (a + b)[1..] == a[1..] + b;
    NameExtend(a[1..], b);
  }

  /** One unfolding of `Substitute`. */
  lemma SubstituteStep(t: string, d: Placeholders)
    requires |t| > 0
    ensures Substitute(t, d) == Emitted(t, d) + Substitute(t[Width(t, d)..], d)
  {
  }

  /** Two texts that open with the same character and the same known token (or none)
      take the same first substitution step. */
  lemma SameStep(t: string, a: string, d: Placeholders)
    requires |t| > 0 && |a| > 0 && t[0] == a[0] && KnownTokenAt(t, d) == KnownTokenAt(a, d)
    ensures Width(t, d) == Width(a, d) && Emitted(t, d) == Emitted(a, d)
  {
  }

  lemma DropFront<T>(a: seq<T>, b: seq<T>, w: nat)
    requires w <= |a|
    ensures (a + b)[w..] == a[w..] + b
  {
  }

  /** One substitution step on `a + b` consumes from `a` alone when `b` starts a new brace. */
  lemma StepWithin(a: string, b: string, d: Placeholders)
    requires |a| > 0 && (|b| == 0 || b[0] == '{')
    ensures Substitute(a + b, d) == Emitted(a, d) + Substitute(a[Width(a, d)..] + b, d)
  {
    var t := a + b;
    SubstituteStep(t, d);
    KnownTokenExtend(a, b, d);
    SameStep(t, a, d);
    DropFront(a, b, Width(a, d));
  }

  lemma {:induction false} SubstituteSplit(a: string, b: string, d: Placeholders)
    requires |b| == 0 || b[0] == '{'
    ensures Substitute(a + b, d) == Substitute(a, d) + Substitute(b, d)
    decreases |a|
  {
    if |a| == 0 {
      assert a + b == b;
    } else {
      var a' := a[Width(a, d)..];
      StepWithin(a, b, d);
      SubstituteSplit(a', b, d);
      SubstituteStep(a, d);
      Assoc(Emitted(a, d), Substitute(a', d), Substitute(b, d));
    }
  }

  /** Where no known token starts, substitution copies one character. */
  lemma CopyStep(t: string, d: Placeholders)
    requires |t| > 0 && KnownTokenAt(t, d).None?
    ensures Substitute(t, d) == [t[0]] + Substitute(t[1..], d)
  {
    SubstituteStep(t, d);
  }

  /** Text without '{' is copied verbatim. */
  lemma {:induction false} SubstituteLiteral(x: string, b: string, d: Placeholders)
    requires '{' !in x
    ensures Substitute(x + b, d) == x + Substitute(b, d)
    decreases |x|
  {
    if |x| > 0 {
      var t := x + b;
      assert t[0] == x[0];
      CopyStep(t, d);
      DropFront(x, b, 1);
      SubstituteLiteral(x[1..], b, d);
      Assoc([x[0]], x[1..], Substitute(b, d));
      assert [x[0]] + x[1..] == x;
    } else {
      assert x + b == b;
    }
  }

  /** A token for a known name becomes the value's text. */
  lemma SubstituteKnown(k: string, b: string, d: Placeholders)
    requires NoBraces(k) && k in d
    ensures Substitute(Token(k) + b, d) == Render(d[k]) + Substitute(b, d)
  {
    var t := Token(k) + b;
    assert t[0] == '{';
    assert t[1..] == k + "}" + b;
    NameOfToken(k, b);
    SubstituteStep(t, d);
    assert t[|k| + 2..] == b;
  }

  /** A token for an unknown name, `{}` and `{ abc d }` included, is copied verbatim. */
  lemma SubstituteUnknown(k: string, b: string, d: Placeholders)
    requires NoBraces(k) && k !in d
    ensures Substitute(Token(k) + b, d) == Token(k) + Substitute(b, d)
  {
    var t := Token(k) + b;
    assert Token(k) == "{" + (k + "}");
    assert t[0] == '{';
    assert t[1..] == (k + "}") + b;
    NameOfToken(k, b);
    CopyStep(t, d);
    SubstituteLiteral(k + "}", b, d);
    Assoc("{", k + "}", Substitute(b, d));
  }

  /** Every occurrence of a known token is replaced, wherever it stands in the template. */
  lemma EveryOccurrenceReplaced(a: string, k: string, b: string, d: Placeholders)
    requires NoBraces(k) && k in d
    ensures Substitute(a + Token(k) + b, d) == Substitute(a, d) + Render(d[k]) + Substitute(b, d)
  {
    assert a + Token(k) + b == a + (Token(k) + b);
    SubstituteSplit(a, Token(k) + b, d);
    SubstituteKnown(k, b, d);
  }

  /** A known token at the start of `t` occurs in `t`. */
  lemma TokenAtStart(t: string, d: Placeholders)
    requires KnownTokenAt(t, d).Some?
    ensures Contains(t, Token(KnownTokenAt(t, d).value))
  {
    var n := KnownTokenAt(t, d).value;
    assert Token(n) == [t[0]] + (n + "}");
    assert OccursAt(t, Token(n), 0);
  }

  lemma ContainsInTail(t: string, x: string)
    requires |t| > 0
    ensures Contains(t[1..], x) ==> Contains(t, x)
  {
    if Contains(t[1..], x) {
      var i :| 0 <= i <= |t[1..]| && OccursAt(t[1..], x, i);
      assert t[1..][i..] == t[i + 1..];
      assert OccursAt(t, x, i + 1);
    }
  }

  /** A template that mentions no known name comes out unchanged. */
  lemma {:induction false} NoKnownTokenIsIdentity(t: string, d: Placeholders)
    requires forall k | k in d :: !Contains(t, Token(k))
    ensures Substitute(t, d) == t
    decreases |t|
  {
    if |t| > 0 {
      if KnownTokenAt(t, d).Some? {
        TokenAtStart(t, d);
      }
      forall k | k in d ensures !Contains(t[1..], Token(k)) {
        ContainsInTail(t, Token(k));
      }
      NoKnownTokenIsIdentity(t[1..], d);
    }
  }

  /** A template cut into literal text and placeholder tokens. */
  datatype Piece = Literal(text: string) | Placeholder(name: string)

  /** Literal pieces hold no '{' and placeholder names hold no brace. */
  predicate WellCut(ps: seq<Piece>) {
    forall i :: 0 <= i < |ps| ==>
      match ps[i]
      case Literal(x) => '{' !in x
      case Placeholder(k) => NoBraces(k)
  }

  /** The template text the pieces spell. */
  function Spell(ps: seq<Piece>): string
    decreases |ps|
  {
    if |ps| == 0 then ""
    else
      (match ps[0] case Literal(x) => x case Placeholder(k) => Token(k)) + Spell(ps[1..])
  }

  /** Reference meaning of substitution, piece by piece: literal text stays, a known
      placeholder becomes its value's text, an unknown one stays as its token. */
  function Fill(ps: seq<Piece>, d: Placeholders): string
    decreases |ps|
  {
    if |ps| == 0 then "" else Filled(ps[0], d) + Fill(ps[1..], d)
  }

  function Filled(p: Piece, d: Placeholders): string {
    match p
    case Literal(x) => x
    case Placeholder(k) => if k in d then Render(d[k]) else Token(k)
  }

  /** Substitution agrees with the piece-by-piece reference meaning. */
  lemma {:induction false} SubstituteMeansFill(ps: seq<Piece>, d: Placeholders)
    requires WellCut(ps)
    ensures Substitute(Spell(ps), d) == Fill(ps, d)
    decreases |ps|
  {
    if |ps| > 0 {
      assert WellCut(ps[1..]) by {
        forall i | 0 <= i < |ps[1..]| ensures ps[1..][i] == ps[i + 1] { }
      }
      SubstituteMeansFill(ps[1..], d);
      var rest := Spell(ps[1..]);
      match ps[0]
      case Literal(x) =>
        SubstituteLiteral(x, rest, d);
      case Placeholder(k) =>
        if k in d {
          SubstituteKnown(k, rest, d);
        } else {
          SubstituteUnknown(k, rest, d);
        }
    }
  }

  lemma ContainsWithin(a: string, x: string, b: string)
    ensures Contains(a + x + b, x)
  {
    var s := a + x + b;
    assert s[|a|..] == x + b;
    assert OccursAt(s, x, |a|);
  }

  function Head(greeting: Option<string>): string {
    if greeting.Some? then greeting.value + "\n" else ""
  }

  function Tail(closing: Option<string>): string {
    if closing.Some? then "\n" + closing.value else ""
  }

  lemma FormatEmailParts(template: string, d: Placeholders, greeting: Option<string>, closing: Option<string>)
    ensures FormatEmail(template, d, greeting, closing) == Head(greeting) + Substitute(template, d) + Tail(closing)
  {
  }

  lemma SplitAround(s: string, x: string, i: nat)
    requires i <= |s| && OccursAt(s, x, i)
    ensures s == s[..i] + x + s[i + |x|..]
  {
  }

  lemma ContainsInside(h: string, a: string, v: string, b: string, t: string)
    ensures Contains(h + (a + v + b) + t, v)
  {
    assert h + (a + v + b) + t == (h + a) + v + (b + t);
    ContainsWithin(h + a, v, b + t);
  }

  /** For a template that mentions a known name, the value's text appears in the e-mail. */
  lemma FormatEmailShowsValue(template: string, d: Placeholders, greeting: Option<string>,
                              closing: Option<string>, k: string)
    requires NoBraces(k) && k in d && Contains(template, Token(k))
    ensures Contains(FormatEmail(template, d, greeting, closing), Render(d[k]))
  {
    var i :| 0 <= i <= |template| && OccursAt(template, Token(k), i);
    var a, b := template[..i], template[i + |Token(k)|..];
    SplitAround(template, Token(k), i);
    EveryOccurrenceReplaced(a, k, b, d);
    FormatEmailParts(template, d, greeting, closing);
    ContainsInside(Head(greeting), Substitute(a, d), Render(d[k]), Substitute(b, d), Tail(closing));
  }

  lemma ContainsFront(g: string, r: string)
    ensures Contains(g + r, g)
  {
    assert OccursAt(g + r, g, 0);
  }

  lemma ContainsBack(r: string, c: string)
    ensures Contains(r + c, c)
  {
    assert (r + c)[|r|..] == c;
    assert OccursAt(r + c, c, |r|);
  }

  lemma GreetingInFront(g: string, body: string, t: string)
    ensures Contains((g + "\n") + body + t, g)
  {
    assert (g + "\n") + body + t == g + ("\n" + body + t);
    ContainsFront(g, "\n" + body + t);
  }

  lemma ClosingAtBack(h: string, body: string, c: string)
    ensures Contains(h + body + ("\n" + c), c)
  {
    assert h + body + ("\n" + c) == (h + body + "\n") + c;
    ContainsBack(h + body + "\n", c);
  }

  /** The greeting and the closing appear in the e-mail, exactly as given. */
  lemma FormatEmailShowsGreetingAndClosing(template: string, d: Placeholders, greeting: Option<string>,
                                           closing: Option<string>)
    ensures greeting.Some? ==> Contains(FormatEmail(template, d, greeting, closing), greeting.value)
    ensures closing.Some? ==> Contains(FormatEmail(template, d, greeting, closing), closing.value)
  {
    FormatEmailParts(template, d, greeting, closing);
    var body := Substitute(template, d);
    if greeting.Some? {
      GreetingInFront(greeting.value, body, Tail(closing));
    }
    if closing.Some? {
      ClosingAtBack(Head(greeting), body, closing.value);
    }
  }
}

/** The formatter's test scenarios: a deliberately broken template with unknown,
    empty and spaced brace expressions next to repeated known placeholders. */
module EmailExamples {
  import opened Wrappers
  import opened JsonValues
  import opened Seqs
  import opened EmailFormat

  /** A line break followed by the eight spaces of indentation the test template carries. */
  const Indent := "\n        "

  /** The broken test template, cut at its brace expressions, line by line. */
  const BrokenPieces: seq<Piece> := FirstLine + SecondLine + LastLines

  const FirstLine: seq<Piece> :=
    [Literal(Indent + "Text" + Indent), Placeholder("DOES_NOT_EXIST"), Literal(" "), Placeholder("USER_EMAIL")]

  const SecondLine: seq<Piece> :=
    [Literal(Indent + "code: "), Placeholder("CODE"), Literal(" "), Placeholder("CODE")]

  const LastLines: seq<Piece> :=
    [Literal(Indent), Placeholder(""), Literal(Indent), Placeholder(" abc d "), Literal(Indent + "More text." + Indent)]

  const BrokenTemplate: string := Spell(BrokenPieces)

  /** The placeholder dictionary the tests build. */
  function TestPlaceholders(remaining: int, email: string, code: string): Placeholders {
    map["REDEMPTIONS_REMAINING" := Int(remaining), "USER_EMAIL" := Str(email),
        "CODE" := Str(code), "EXPIRATION_DATE" := Str("2018-12-19")]
  }

  /** What the broken template must turn into: both codes and the e-mail address filled
      in, `{DOES_NOT_EXIST}`, `{}` and `{ abc d }` kept character for character. */
  function BrokenBody(email: string, code: string): string {
    Concat(FirstLineOut(email) + SecondLineOut(code) + LastLinesOut)
  }

  function FirstLineOut(email: string): seq<string> {
    [Indent + "Text" + Indent, "{DOES_NOT_EXIST}", " ", email]
  }

  function SecondLineOut(code: string): seq<string> {
    [Indent + "code: ", code, " ", code]
  }

  const LastLinesOut: seq<string> := [Indent, "{}", Indent, "{ abc d }", Indent + "More text." + Indent]

  /** The parts written one after another. */
  function Concat(parts: seq<string>): string
    decreases |parts|
  {
    if |parts| == 0 then "" else parts[0] + Concat(parts[1..])
  }

  /** The test dictionary's lookups; names of different lengths are different names. */
  lemma TestPlaceholdersLookup(remaining: int, email: string, code: string)
    ensures var d := TestPlaceholders(remaining, email, code);
            "USER_EMAIL" in d && d["USER_EMAIL"] == Str(email) && "CODE" in d && d["CODE"] == Str(code)
            && "DOES_NOT_EXIST" !in d && "" !in d && " abc d " !in d
  {
    assert |"REDEMPTIONS_REMAINING"| == 21 && |"USER_EMAIL"| == 10 && |"CODE"| == 4;
    assert |"EXPIRATION_DATE"| == 15 && |"DOES_NOT_EXIST"| == 14 && |" abc d "| == 7;
  }

  lemma UnknownTokens()
    ensures Token("DOES_NOT_EXIST") == "{DOES_NOT_EXIST}"
    ensures Token("") == "{}"
    ensures Token(" abc d ") == "{ abc d }"
  {
  }

  lemma LiteralsBraceFree()
    ensures '{' !in Indent && '{' !in "Text" && '{' !in "code: " && '{' !in "More text." && '{' !in " "
  {
  }

  lemma BrokenPiecesWellCut()
    ensures WellCut(BrokenPieces)
  {
    FirstLineWellCut();
    SecondLineWellCut();
    LastLinesWellCut();
    WellCutAppend(FirstLine, SecondLine);
    WellCutAppend(FirstLine + SecondLine, LastLines);
  }

  lemma FirstLineWellCut()
    ensures WellCut(FirstLine)
  {
    LiteralsBraceFree();
    NotInConcat('{', Indent, "Text");
    NotInConcat('{', Indent + "Text", Indent);
    assert NoBraces("DOES_NOT_EXIST") && NoBraces("USER_EMAIL");
    forall i | 0 <= i < |FirstLine|
      ensures match FirstLine[i]
              case Literal(x) => '{' !in x
              case Placeholder(k) => NoBraces(k)
    {
    }
  }

  lemma SecondLineWellCut()
    ensures WellCut(SecondLine)
  {
    LiteralsBraceFree();
    assert NoBraces("CODE");
  }

  lemma LastLinesWellCut()
    ensures WellCut(LastLines)
  {
    LiteralsBraceFree();
    assert NoBraces("") && NoBraces(" abc d ");
  }

  lemma WellCutAppend(ps: seq<Piece>, qs: seq<Piece>)
    requires WellCut(ps) && WellCut(qs)
    ensures WellCut(ps + qs)
  {
    forall i | 0 <= i < |ps + qs|
      ensures (ps + qs)[i] == if i < |ps| then ps[i] else qs[i - |ps|]
    {
    }
  }

  /** The broken template's body, for any e-mail address and code. */
  lemma BrokenTemplateBody(remaining: int, email: string, code: string)
    ensures Substitute(BrokenTemplate, TestPlaceholders(remaining, email, code)) == BrokenBody(email, code)
  {
    var d := TestPlaceholders(remaining, email, code);
    BrokenPiecesWellCut();
    SubstituteMeansFill(BrokenPieces, d);
    var out1, out2, out3 := FirstLineOut(email), SecondLineOut(code), LastLinesOut;
    FirstLineFilled(remaining, email, code);
    SecondLineFilled(remaining, email, code);
    LastLinesFilled(remaining, email, code);
    FillAppend(FirstLine, SecondLine, d);
    FillAppend(FirstLine + SecondLine, LastLines, d);
    ConcatAppend(out1, out2);
    ConcatAppend(out1 + out2, out3);
  }

  lemma FirstLineFilled(remaining: int, email: string, code: string)
    ensures Fill(FirstLine, TestPlaceholders(remaining, email, code))
            == Concat(FirstLineOut(email))
  {
    var d := TestPlaceholders(remaining, email, code);
    TestPlaceholdersLookup(remaining, email, code);
    UnknownTokens();
    var out := FirstLineOut(email);
    forall i | 0 <= i < 4 ensures Filled(FirstLine[i], d) == out[i] { }
    FillMatches(FirstLine, out, d);
  }

  lemma SecondLineFilled(remaining: int, email: string, code: string)
    ensures Fill(SecondLine, TestPlaceholders(remaining, email, code)) == Concat(SecondLineOut(code))
  {
    var d := TestPlaceholders(remaining, email, code);
    TestPlaceholdersLookup(remaining, email, code);
    var out := SecondLineOut(code);
    forall i | 0 <= i < 4 ensures Filled(SecondLine[i], d) == out[i] { }
    FillMatches(SecondLine, out, d);
  }

  lemma LastLinesFilled(remaining: int, email: string, code: string)
    ensures Fill(LastLines, TestPlaceholders(remaining, email, code))
            == Concat(LastLinesOut)
  {
    var d := TestPlaceholders(remaining, email, code);
    TestPlaceholdersLookup(remaining, email, code);
    UnknownTokens();
    var out := LastLinesOut;
    forall i | 0 <= i < 5 ensures Filled(LastLines[i], d) == out[i] { }
    FillMatches(LastLines, out, d);
  }

  /** Filling piece by piece gives the parts written one after another. */
  lemma {:induction false} FillMatches(ps: seq<Piece>, out: seq<string>, d: Placeholders)
    requires |ps| == |out| && forall i :: 0 <= i < |ps| ==> Filled(ps[i], d) == out[i]
    ensures Fill(ps, d) == Concat(out)
    decreases |ps|
  {
    if |ps| > 0 {
      FillMatches(ps[1..], out[1..], d);
    }
  }

  lemma {:induction false} FillAppend(ps: seq<Piece>, qs: seq<Piece>, d: Placeholders)
    ensures Fill(ps + qs, d) == Fill(ps, d) + Fill(qs, d)
    decreases |ps|
  {
    if |ps| == 0 {
      assert ps + qs == qs;
    } else {
      assert (ps + qs)[0] == ps[0];
      assert (ps + qs)[1..] == ps[1..] + qs;
      FillAppend(ps[1..], qs, d);
      Assoc(Filled(ps[0], d), Fill(ps[1..], d), Fill(qs, d));
    }
  }

  lemma {:induction false} ConcatAppend(xs: seq<string>, ys: seq<string>)
    ensures Concat(xs + ys) == Concat(xs) + Concat(ys)
    decreases |xs|
  {
    if |xs| == 0 {
      assert xs + ys == ys;
    } else {
      assert (xs + ys)[0] == xs[0];
      assert (xs + ys)[1..] == xs[1..] + ys;
      ConcatAppend(xs[1..], ys);
      Assoc(xs[0], Concat(xs[1..]), Concat(ys));
    }
  }

  /** With greeting 'hi {CODE} ' and closing ' bye {CODE}', neither is substituted. */
  lemma BrokenTemplateWithGreeting()
    ensures FormatEmail(BrokenTemplate, TestPlaceholders(500, "johndoe@unknown.com", "GIL7RUEOU7VHBH7Q"),
                        Some("hi {CODE} "), Some(" bye {CODE}"))
            == "hi {CODE} " + "\n" + BrokenBody("johndoe@unknown.com", "GIL7RUEOU7VHBH7Q") + "\n" + " bye {CODE}"
  {
    BrokenTemplateBody(500, "johndoe@unknown.com", "GIL7RUEOU7VHBH7Q");
  }

  /** With no greeting and no closing, the e-mail is the substituted body alone. */
  lemma BrokenTemplateNoGreeting()
    ensures FormatEmail(BrokenTemplate, TestPlaceholders(499, "johndoe2@unknown.com", "ABC7RUEOU7VHBH7Q"), None, None)
            == BrokenBody("johndoe2@unknown.com", "ABC7RUEOU7VHBH7Q")
  {
    BrokenTemplateBody(499, "johndoe2@unknown.com", "ABC7RUEOU7VHBH7Q");
  }
}

/** Concrete inputs that exhibit behaviours of `getLangsForScript_` the
    general lemmas in module Coverage only bound: the partition of a small
    font, the first call after start-up rendering a mark without its dotted
    circle, and the length-based order of rows. */
module CoverageExamples {
  import opened Wrappers
  import opened PySort
  import opened Hyperglot
  import opened GlyphsHost
  import opened Coverage

  function NameOf(c: char): GlyphInfo { GlyphInfo([c]) }

  lemma SortedSetABC()
    ensures SortedSet("abc", CharLess()) == "abc"
    ensures SortedSet("ad", CharLess()) == "ad"
  {
    CharLessIsStrictTotal();
    assert "abc"[..2] == "ab";
    assert "ab"[..1] == "a";
    assert "ad"[..1] == "a";
    assert "a"[..0] == [];
  }

  lemma InFontAB()
    ensures InFont({"a", "b"}, NameOf)('a')
    ensures InFont({"a", "b"}, NameOf)('b')
    ensures !InFont({"a", "b"}, NameOf)('c')
    ensures !InFont({"a", "b"}, NameOf)('d')
  {
    assert ['a'] == "a" && ['b'] == "b";
    assert NameOf('a').name in {"a", "b"};
    assert NameOf('b').name in {"a", "b"};
    var f := NameOf;
    assert f('a') == NameOf('a') && f('b') == NameOf('b');
    assert NameOf('c').name == "c";
    assert "c" != "a" && "c" != "b";
    assert NameOf('d').name == "d";
    assert "d" != "a" && "d" != "b";
  }

  lemma PartitionAB()
    ensures Select("abc", InFont({"a", "b"}, NameOf), true) == "ab"
    ensures Select("abc", InFont({"a", "b"}, NameOf), false) == "c"
    ensures Select("ad", InFont({"a", "b"}, NameOf), true) == "a"
    ensures Select("ad", InFont({"a", "b"}, NameOf), false) == "d"
  {
    var p := InFont({"a", "b"}, NameOf);
    InFontAB();
    assert "abc"[..2] == "ab" && "ab"[..1] == "a" && "ad"[..1] == "a" && "a"[..0] == [];
    SelectUnfold("a", p, true);
    SelectUnfold("a", p, false);
    SelectUnfold("ab", p, true);
    SelectUnfold("ab", p, false);
    SelectUnfold("abc", p, true);
    SelectUnfold("abc", p, false);
    SelectUnfold("ad", p, true);
    SelectUnfold("ad", p, false);
  }

  function Ctx(): Context { Context("Latin", {"a", "b"}, NameOf, false, true) }
  function O1(): Orthography { Orthography("Latin", None, "abc", []) }
  function O2(): Orthography { Orthography("Latin", None, "ad", []) }
  function L1(): Language { Language("aaa", "A", None, None, None, Some([O1()])) }
  function L2(): Language { Language("bbb", "B", None, None, None, Some([O2()])) }

  lemma ScenarioPartition()
    ensures SupportedChars(O1(), Ctx()) == "ab" && UnsupportedChars(O1(), Ctx()) == "c"
    ensures SupportedChars(O2(), Ctx()) == "a" && UnsupportedChars(O2(), Ctx()) == "d"
  {
    SortedSetABC();
    assert RequiredChars(O1()) == "abc";
    assert RequiredChars(O2()) == "ad";
    PartitionAB();
  }

  lemma ScenarioScriptOrthos()
    ensures ScriptOrthos([O1()], "Latin") == [O1()]
    ensures ScriptOrthos([O2()], "Latin") == [O2()]
  {
    var q := OfScript("Latin");
    SelectUnfold([O1()], q, true);
    SelectUnfold([O2()], q, true);
    assert [O1()][..0] == [] && [O2()][..0] == [];
  }

  lemma ScenarioStep(st: PassState, lang: Language, o: Orthography)
    requires lang.orthographies == Some([o]) && ScriptOrthos([o], "Latin") == [o]
    requires |UnsupportedChars(o, Ctx())| == 1
    ensures StepLang(st, lang, Ctx()).total == st.total + 1
    ensures StepLang(st, lang, Ctx()).supported == st.supported
    ensures StepLang(st, lang, Ctx()).unsupported == st.unsupported + 1
  {
    assert [o][..0] == [];
    var st' := st.(total := st.total + 1);
    assert StepLang(st, lang, Ctx()) == FoldOrthos(st', lang, [o], Ctx());
    assert FoldOrthos(st', lang, [o], Ctx()) == StepOrtho(st', lang, o, Ctx());
  }

  lemma Scenario()
    ensures SupportedChars(O1(), Ctx()) == "ab" && UnsupportedChars(O1(), Ctx()) == "c"
    ensures SupportedChars(O2(), Ctx()) == "a" && UnsupportedChars(O2(), Ctx()) == "d"
    ensures var r := Pass([L1(), L2()], Ctx(), []);
      r.total == 2 && r.supported == 0 && r.unsupported == 2
  {
    ScenarioPartition();
    ScenarioScriptOrthos();
    assert [L1(), L2()][..1] == [L1()] && [L1()][..0] == [];
    var s0 := Pass([], Ctx(), []);
    ScenarioStep(s0, L1(), O1());
    var s1 := Pass([L1()], Ctx(), []);
    assert s1 == StepLang(s0, L1(), Ctx());
    ScenarioStep(s1, L2(), O2());
  }

  // ---- the first call can differ from the second ----

  function NoFont(): Context { Context("Latin", {}, NameOf, false, true) }
  function OA(): Orthography { Orthography("Latin", None, "x", []) }
  function OB(): Orthography { Orthography("Latin", None, "b", "x") }
  function LA(): Language { Language("aaa", "A", None, None, None, Some([OA()])) }
  function LB(): Language { Language("bbb", "B", None, None, None, Some([OB()])) }

  lemma NoFontUnsupported(o: Orthography)
    ensures UnsupportedChars(o, NoFont()) == RequiredChars(o)
    ensures SupportedChars(o, NoFont()) == []
  {
    SelectAllOrNone(RequiredChars(o), InFont({}, NameOf), false);
  }

  lemma NoFontOrtho(st: PassState, lang: Language, o: Orthography)
    requires RequiredChars(o) != []
    ensures StepOrtho(st, lang, o, NoFont()) == PassState(
      st.items + [MakeRow(lang, o, DisplayAll(RequiredChars(o), st.marks + o.baseMarks), [])],
      st.marks + o.baseMarks, st.total, st.supported, st.unsupported + 1)
  {
    NoFontUnsupported(o);
    assert DisplayAll([], st.marks + o.baseMarks) == [];
  }

  lemma FoldOne(st: PassState, lang: Language, o: Orthography, ctx: Context)
    ensures FoldOrthos(st, lang, [o], ctx) == StepOrtho(st, lang, o, ctx)
  {
    assert [o][..0] == [];
  }

  lemma ScriptOrthosOne(o: Orthography, script: string)
    requires o.script == script
    ensures ScriptOrthos([o], script) == [o]
  {
    SelectUnfold([o], OfScript(script), true);
    assert [o][..0] == [];
  }

  /** A language with a single orthography of the script takes one step. */
  lemma SingleOrthoStep(st: PassState, lang: Language, o: Orthography, ctx: Context)
    requires lang.orthographies == Some([o]) && o.script == ctx.script
    ensures StepLang(st, lang, ctx) == StepOrtho(st.(total := st.total + 1), lang, o, ctx)
  {
    ScriptOrthosOne(o, ctx.script);
    FoldOne(st.(total := st.total + 1), lang, o, ctx);
  }

  lemma NoFontStep(st: PassState, lang: Language, o: Orthography)
    requires lang.orthographies == Some([o]) && o.script == "Latin"
    requires RequiredChars(o) != []
    ensures StepLang(st, lang, NoFont()) == PassState(
      st.items + [MakeRow(lang, o, DisplayAll(RequiredChars(o), st.marks + o.baseMarks), [])],
      st.marks + o.baseMarks, st.total + 1, st.supported, st.unsupported + 1)
  {
    SingleOrthoStep(st, lang, o, NoFont());
    NoFontOrtho(st.(total := st.total + 1), lang, o);
  }

  lemma RequiredAB()
    ensures RequiredChars(OA()) == "x"
    ensures RequiredChars(OB()) == "bx"
  {
    CharLessIsStrictTotal();
    assert "x"[..0] == [] && "b"[..0] == [];
  }

  /** Two rows from the first call and the same rows from a call that starts
      with the marks the first one accumulated. */
  lemma {:induction false} TwoPasses(marks0: seq<char>)
    ensures Pass([LA(), LB()], NoFont(), marks0) == PassState(
      [MakeRow(LA(), OA(), DisplayAll("x", marks0), []),
       MakeRow(LB(), OB(), DisplayAll("bx", marks0 + "x"), [])],
      marks0 + "x", 2, 0, 2)
  {
    RequiredAB();
    assert [LA(), LB()][..1] == [LA()] && [LA()][..0] == [];
    var s0 := Pass([], NoFont(), marks0);
    NoFontStep(s0, LA(), OA());
    assert marks0 + [] == marks0;
    var s1 := Pass([LA()], NoFont(), marks0);
    NoFontStep(s1, LB(), OB());
  }

  /** The first call shows `x` bare in row A although it is a mark of row B;
      every later call shows it with the dotted circle. */
  lemma FirstCallDiffers()
    ensures Pass([LA(), LB()], NoFont(), []).marks == "x"
    ensures Pass([LA(), LB()], NoFont(), []).items[0].missing.l == ["x"]
    ensures Pass([LA(), LB()], NoFont(), "x").items[0].missing.l == [[DottedCircle, 'x']]
    ensures LangsForScript([LA(), LB()], NoFont(), []) != LangsForScript([LA(), LB()], NoFont(), "x")
  {
    TwoPasses([]);
    TwoPasses("x");
    assert [] + "x" == "x";
    var first := Pass([LA(), LB()], NoFont(), []).items;
    var second := Pass([LA(), LB()], NoFont(), "x").items;
    assert DisplayAll("x", []) == ["x"];
    assert DisplayAll("x", "x") == [[DottedCircle, 'x']];
    var r := second[0];
    assert r !in multiset(first) by {
      assert first[0].missing != r.missing;
      assert first[1].iso != r.iso;
      assert multiset(first) == multiset{first[0], first[1]};
    }
    assert r in multiset(second);
    LangsForScriptOrder([LA(), LB()], NoFont(), [], 0);
    LangsForScriptOrder([LA(), LB()], NoFont(), "x", 0);
  }

  // ---- the table is ordered by string length, not by the number of missing characters ----

  function FourPlain(): Row {
    Row("ccc", "C", -1, "", "living", CharList(["a", "b", "c", "d"]), CharList([]))
  }

  function ThreeMarks(): Row {
    Row("ddd", "D", -1, "", "living",
      CharList([[DottedCircle, 'x'], [DottedCircle, 'y'], [DottedCircle, 'z']]), CharList([]))
  }

  lemma ExampleLengths()
    ensures MissingLength(FourPlain()) == 7
    ensures MissingLength(ThreeMarks()) == 8
  {
    assert FourPlain().missing.Str() == "a b c d";
    assert ThreeMarks().missing.Str() == [DottedCircle, 'x', ' ', DottedCircle, 'y', ' ', DottedCircle, 'z'];
  }

  /** A row missing four characters sorts before one missing three marks. */
  lemma SortedByLengthNotCount()
    ensures FourPlain().missing.ListLen() > ThreeMarks().missing.ListLen()
    ensures SortByKey([ThreeMarks(), FourPlain()], MissingLength) == [FourPlain(), ThreeMarks()]
  {
    ExampleLengths();
    var a, b := FourPlain(), ThreeMarks();
    var s := SortByKey([b, a], MissingLength);
    SortByKeyFacts([b, a], MissingLength);
    assert multiset(s) == multiset{a, b};
    assert |s| == 2;
    assert s[0] in multiset(s) && s[1] in multiset(s);
    assert s == [s[0], s[1]];
    assert s[0] == a;
  }
}

/** The coverage engine specified as values: what one call of
    `getLangsForScript_` computes for one script, from the language database,
    the font's glyph names, the editor's glyph naming and the marks the
    session has already seen. The class in module Plugin is proved to compute
    exactly this. */
module Coverage {
  import opened Wrappers
  import opened PyText
  import opened PySort
  import opened Hyperglot
  import opened GlyphsHost

  /** U+25CC DOTTED CIRCLE, the placeholder shown before a combining mark. */
  const DottedCircle: char := '\U{25CC}'

  /** The inputs of one pass that stay fixed while it runs: the requested
      script, the font's glyph names, the editor's glyph naming and the two
      visibility check boxes ("Show completed", "Show incomplete"). */
  datatype Context = Context(
    script: string,
    glyphset: set<string>,
    lookup: char -> GlyphInfo,
    showSupported: bool,
    showUnsupported: bool)

  /** `charList`: display tokens that behave as their space-joined string. */
  datatype CharList = CharList(l: seq<string>) {
    /** The string value, `' '.join(l)`. */
    function Str(): string { Join(" ", l) }

    /** `listLen()`. */
    function ListLen(): nat { |l| }
  }

  /** One row of the languages table. */
  datatype Row = Row(
    iso: string,
    language: string,
    speakers: int,
    orthoStatus: string,
    langStatus: string,
    missing: CharList,
    supported: CharList)

  /** The running state of one pass: the emitted rows, the session's
      accumulated marks and the three counters. */
  datatype PassState = PassState(
    items: seq<Row>,
    marks: seq<char>,
    total: int,
    supported: int,
    unsupported: int)

  // ---- one orthography ----

  function OfScript(script: string): Orthography -> bool {
    (o: Orthography) => o.script == script
  }

  /** The orthographies of a language that are written in `script`, in order. */
  function ScriptOrthos(os: seq<Orthography>, script: string): seq<Orthography> {
    Select(os, OfScript(script), true)
  }

  /** The characters an orthography requires: its distinct base characters in
      code point order, then its marks as given. */
  function RequiredChars(o: Orthography): seq<char> {
    CharLessIsStrictTotal();
    SortedSet(o.baseChars, CharLess()) + o.baseMarks
  }

  /** "The glyph the editor names for `c` is in the font." */
  function InFont(glyphset: set<string>, lookup: char -> GlyphInfo): char -> bool {
    (c: char) => lookup(c).name in glyphset
  }

  function SupportedChars(o: Orthography, ctx: Context): seq<char> {
    Select(RequiredChars(o), InFont(ctx.glyphset, ctx.lookup), true)
  }

  function UnsupportedChars(o: Orthography, ctx: Context): seq<char> {
    Select(RequiredChars(o), InFont(ctx.glyphset, ctx.lookup), false)
  }

  /** The display form of a character given the marks seen so far. */
  function Display(c: char, marks: seq<char>): string {
    if c in marks then [DottedCircle, c] else [c]
  }

  function DisplayAll(cs: seq<char>, marks: seq<char>): (r: seq<string>)
    ensures |r| == |cs|
  {
    seq(|cs|, i requires 0 <= i < |cs| => Display(cs[i], marks))
  }

  /** The dotted-circle stripping of the copy and select actions: a two-character
      token that starts with the dotted circle becomes its second character. */
  function Strip(t: string): string {
    if |t| == 2 && t[0] == DottedCircle then [t[1]] else t
  }

  function StripAll(ts: seq<string>): (r: seq<string>)
    ensures |r| == |ts|
  {
    seq(|ts|, i requires 0 <= i < |ts| => Strip(ts[i]))
  }

  /** The one-character strings of `cs`. */
  function Singletons(cs: seq<char>): (r: seq<string>)
    ensures |r| == |cs|
  {
    seq(|cs|, i requires 0 <= i < |cs| => [cs[i]])
  }

  /** The 'L1 Speakers' value: -1 when the count is absent, None or 0. */
  function SpeakersValue(speakers: Option<int>): int {
    if speakers.None? || speakers.value == 0 then -1 else speakers.value
  }

  function MakeRow(lang: Language, o: Orthography, missing: seq<string>, supported: seq<string>): Row {
    Row(
      lang.code,
      lang.preferredName.GetOr(lang.name),
      SpeakersValue(lang.speakers),
      o.status.GetOr(""),
      lang.status.GetOr("living"),
      CharList(missing),
      CharList(supported))
  }

  /** Whether a row with `missingCount` missing characters is shown. */
  predicate Emitted(missingCount: nat, ctx: Context) {
    (missingCount >= 1 && ctx.showUnsupported) || (missingCount == 0 && ctx.showSupported)
  }

  /** Evaluates one orthography of `lang` on top of the state so far. */
  function StepOrtho(st: PassState, lang: Language, o: Orthography, ctx: Context): PassState {
    var sup := SupportedChars(o, ctx);
    var unsup := UnsupportedChars(o, ctx);
    var marks := st.marks + o.baseMarks;
    var row := MakeRow(lang, o, DisplayAll(unsup, marks), DisplayAll(sup, marks));
    PassState(
      if Emitted(|unsup|, ctx) then st.items + [row] else st.items,
      marks,
      st.total,
      if |unsup| == 0 then st.supported + 1 else st.supported,
      if |unsup| == 0 then st.unsupported else st.unsupported + 1)
  }

  function FoldOrthos(st: PassState, lang: Language, os: seq<Orthography>, ctx: Context): PassState
  {
    if os == [] then st
    else StepOrtho(FoldOrthos(st, lang, os[..|os| - 1], ctx), lang, os[|os| - 1], ctx)
  }

  /** Evaluating one more orthography of `os` is one more step. */
  lemma FoldOrthosPrefix(st: PassState, lang: Language, os: seq<Orthography>, j: int, ctx: Context)
    requires 0 <= j < |os|
    ensures FoldOrthos(st, lang, os[..j + 1], ctx) == StepOrtho(FoldOrthos(st, lang, os[..j], ctx), lang, os[j], ctx)
  {
    assert os[..j + 1][..j] == os[..j];
  }

  /** One language: skipped without an 'orthographies' key, otherwise its
      orthographies of the script are counted and then evaluated in order. */
  function StepLang(st: PassState, lang: Language, ctx: Context): PassState {
    match lang.orthographies
    case None => st
    case Some(os) =>
      var orthos := ScriptOrthos(os, ctx.script);
      FoldOrthos(st.(total := st.total + |orthos|), lang, orthos, ctx)
  }

  /** The state after the languages `langs`, starting from the session's marks `marks0`. */
  function Pass(langs: seq<Language>, ctx: Context, marks0: seq<char>): PassState
  {
    if langs == [] then PassState([], marks0, 0, 0, 0)
    else StepLang(Pass(langs[..|langs| - 1], ctx, marks0), langs[|langs| - 1], ctx)
  }

  /** Passing over one more language of `langs` is one more step. */
  lemma PassPrefix(langs: seq<Language>, i: int, ctx: Context, marks0: seq<char>)
    requires 0 <= i < |langs|
    ensures Pass(langs[..i + 1], ctx, marks0) == StepLang(Pass(langs[..i], ctx, marks0), langs[i], ctx)
  {
    assert langs[..i + 1][..i] == langs[..i];
  }

  /** The sort key of line 344: the length of the Missing Chars string. */
  function MissingLength(r: Row): int {
    |r.missing.Str()|
  }

  /** The rows `getLangsForScript_` returns. */
  function LangsForScript(langs: seq<Language>, ctx: Context, marks0: seq<char>): seq<Row> {
    SortByKey(Pass(langs, ctx, marks0).items, MissingLength)
  }

  /** The number of orthographies of `script` over the languages that have an
      'orthographies' key. */
  function OrthoCount(langs: seq<Language>, script: string): nat {
    if langs == [] then 0
    else
      var last := langs[|langs| - 1];
      OrthoCount(langs[..|langs| - 1], script)
        + (if last.orthographies.Some? then |ScriptOrthos(last.orthographies.value, script)| else 0)
  }

  /** The marks of the orthographies of `script`, in the order a pass meets them. */
  function ScriptMarks(langs: seq<Language>, script: string): seq<char> {
    if langs == [] then []
    else
      var last := langs[|langs| - 1];
      ScriptMarks(langs[..|langs| - 1], script)
        + (if last.orthographies.Some? then OrthoMarks(ScriptOrthos(last.orthographies.value, script)) else [])
  }

  function OrthoMarks(os: seq<Orthography>): seq<char> {
    if os == [] then [] else OrthoMarks(os[..|os| - 1]) + os[|os| - 1].baseMarks
  }

  /** Whether a row may be in the output under the visibility flags. */
  predicate RowAllowed(row: Row, ctx: Context) {
    if row.missing.l == [] then ctx.showSupported else ctx.showUnsupported
  }

  // ---- one orthography ----

  /** Every required character lands in exactly one of the two lists, in
      order: supported exactly when its glyph name is in the font. */
  lemma OrthographyPartition(o: Orthography, ctx: Context)
    ensures Interleaving(RequiredChars(o), SupportedChars(o, ctx), UnsupportedChars(o, ctx))
    ensures forall i :: 0 <= i < |SupportedChars(o, ctx)| ==>
              ctx.lookup(SupportedChars(o, ctx)[i]).name in ctx.glyphset
    ensures forall i :: 0 <= i < |UnsupportedChars(o, ctx)| ==>
              ctx.lookup(UnsupportedChars(o, ctx)[i]).name !in ctx.glyphset
    ensures multiset(SupportedChars(o, ctx)) + multiset(UnsupportedChars(o, ctx))
         == multiset(RequiredChars(o))
  {
    var p := InFont(ctx.glyphset, ctx.lookup);
    SelectPartition(RequiredChars(o), p);
    SelectCounts(RequiredChars(o), p);
    SelectMembers(RequiredChars(o), p, true);
    SelectMembers(RequiredChars(o), p, false);
  }

  /** The required characters are the distinct base characters in strictly
      increasing code point order followed by the marks. */
  lemma RequiredCharsShape(o: Orthography)
    ensures var base := RequiredChars(o)[..|RequiredChars(o)| - |o.baseMarks|];
      && |RequiredChars(o)| >= |o.baseMarks|
      && RequiredChars(o)[|RequiredChars(o)| - |o.baseMarks|..] == o.baseMarks
      && (forall i, j :: 0 <= i < j < |base| ==> base[i] < base[j])
      && (forall c :: c in base <==> c in o.baseChars)
  {
    CharLessIsStrictTotal();
    var base := SortedSet(o.baseChars, CharLess());
    assert RequiredChars(o) == base + o.baseMarks;
    assert RequiredChars(o)[..|RequiredChars(o)| - |o.baseMarks|] == base;
  }

  /** Stripping the dotted circle undoes the display form. */
  lemma StripDisplay(c: char, marks: seq<char>)
    ensures Strip(Display(c, marks)) == [c]
    ensures |Display(c, marks)| == (if c in marks then 2 else 1)
  {
  }

  /** The space-joined display tokens of characters that are not whitespace
      split back into those tokens, and stripping them gives the characters
      back. This is what the copy and select actions rely on. */
  lemma SplitStripDisplay(cs: seq<char>, marks: seq<char>)
    requires forall i :: 0 <= i < |cs| ==> !IsSpace(cs[i])
    ensures Split(CharList(DisplayAll(cs, marks)).Str()) == DisplayAll(cs, marks)
    ensures StripAll(Split(CharList(DisplayAll(cs, marks)).Str())) == Singletons(cs)
  {
    var ts := DisplayAll(cs, marks);
    forall i | 0 <= i < |ts| ensures IsWord(ts[i]) {
      assert !IsSpace(DottedCircle);
    }
    SplitJoin(' ', ts);
    assert [' '] == " ";
  }

  /** Tokens without a dotted circle make a string of length 2n - 1, so on
      such rows ordering by string length is ordering by number of
      missing characters. */
  lemma {:induction false} JoinLengthOfSingles(ts: seq<string>)
    requires forall i :: 0 <= i < |ts| ==> |ts[i]| == 1
    ensures |Join(" ", ts)| == if ts == [] then 0 else 2 * |ts| - 1
  {
    if |ts| > 1 {
      JoinLengthOfSingles(ts[1..]);
    }
  }

  // ---- one pass ----

  lemma StepOrthoFacts(st: PassState, lang: Language, o: Orthography, ctx: Context)
    ensures var r := StepOrtho(st, lang, o, ctx);
      && r.total == st.total
      && r.supported + r.unsupported == st.supported + st.unsupported + 1
      && r.supported >= st.supported && r.unsupported >= st.unsupported
      && |st.items| <= |r.items| && r.items[..|st.items|] == st.items
      && |r.items| - |st.items|
           == (if ctx.showSupported then r.supported - st.supported else 0)
            + (if ctx.showUnsupported then r.unsupported - st.unsupported else 0)
      && (forall i :: |st.items| <= i < |r.items| ==> RowAllowed(r.items[i], ctx))
      && r.marks == st.marks + o.baseMarks
  {
    var unsup := UnsupportedChars(o, ctx);
    assert |DisplayAll(unsup, st.marks + o.baseMarks)| == |unsup|;
  }

  lemma {:induction false} FoldOrthosFacts(st: PassState, lang: Language, os: seq<Orthography>, ctx: Context)
    ensures var r := FoldOrthos(st, lang, os, ctx);
      && r.total == st.total
      && r.supported + r.unsupported == st.supported + st.unsupported + |os|
      && r.supported >= st.supported && r.unsupported >= st.unsupported
      && |st.items| <= |r.items| && r.items[..|st.items|] == st.items
      && |r.items| - |st.items|
           == (if ctx.showSupported then r.supported - st.supported else 0)
            + (if ctx.showUnsupported then r.unsupported - st.unsupported else 0)
      && (forall i :: |st.items| <= i < |r.items| ==> RowAllowed(r.items[i], ctx))
      && r.marks == st.marks + OrthoMarks(os)
  {
    if os != [] {
      var os' := os[..|os| - 1];
      var mid := FoldOrthos(st, lang, os', ctx);
      FoldOrthosFacts(st, lang, os', ctx);
      StepOrthoFacts(mid, lang, os[|os| - 1], ctx);
      var r := FoldOrthos(st, lang, os, ctx);
      assert r == StepOrtho(mid, lang, os[|os| - 1], ctx);
      assert r.items[..|mid.items|] == mid.items;
      assert r.items[..|st.items|] == mid.items[..|st.items|];
      forall i | |st.items| <= i < |r.items| ensures RowAllowed(r.items[i], ctx) {
        if i < |mid.items| {
          assert r.items[i] == mid.items[i];
        }
      }
    }
  }

  lemma StepLangFacts(st: PassState, lang: Language, ctx: Context)
    ensures var r := StepLang(st, lang, ctx);
      var n := if lang.orthographies.Some? then |ScriptOrthos(lang.orthographies.value, ctx.script)| else 0;
      && r.total == st.total + n
      && r.supported + r.unsupported == st.supported + st.unsupported + n
      && r.supported >= st.supported && r.unsupported >= st.unsupported
      && |st.items| <= |r.items| && r.items[..|st.items|] == st.items
      && |r.items| - |st.items|
           == (if ctx.showSupported then r.supported - st.supported else 0)
            + (if ctx.showUnsupported then r.unsupported - st.unsupported else 0)
      && (forall i :: |st.items| <= i < |r.items| ==> RowAllowed(r.items[i], ctx))
      && r.marks == st.marks
           + (if lang.orthographies.Some? then OrthoMarks(ScriptOrthos(lang.orthographies.value, ctx.script)) else [])
  {
    if lang.orthographies.Some? {
      var orthos := ScriptOrthos(lang.orthographies.value, ctx.script);
      FoldOrthosFacts(st.(total := st.total + |orthos|), lang, orthos, ctx);
    }
  }

  /** The invariant of a pass: its counters, its rows and its marks. */
  lemma {:induction false} PassFacts(langs: seq<Language>, ctx: Context, marks0: seq<char>)
    ensures var r := Pass(langs, ctx, marks0);
      && r.total == OrthoCount(langs, ctx.script)
      && r.supported + r.unsupported == r.total
      && r.supported >= 0 && r.unsupported >= 0
      && |r.items| == (if ctx.showSupported then r.supported else 0)
                    + (if ctx.showUnsupported then r.unsupported else 0)
      && (forall i :: 0 <= i < |r.items| ==> RowAllowed(r.items[i], ctx))
      && r.marks == marks0 + ScriptMarks(langs, ctx.script)
  {
    if langs != [] {
      var langs', last := langs[..|langs| - 1], langs[|langs| - 1];
      var prev := Pass(langs', ctx, marks0);
      var r := Pass(langs, ctx, marks0);
      assert r == StepLang(prev, last, ctx);
      PassFacts(langs', ctx, marks0);
      StepLangFacts(prev, last, ctx);
      forall i | 0 <= i < |r.items| ensures RowAllowed(r.items[i], ctx) {
        if i < |prev.items| {
          assert r.items[i] == prev.items[i];
        }
      }
    }
  }

  /** Every orthography of the script in a language with an 'orthographies'
      key is counted once, as complete or as incomplete. */
  lemma PassCounts(langs: seq<Language>, ctx: Context, marks0: seq<char>)
    ensures Pass(langs, ctx, marks0).total == OrthoCount(langs, ctx.script)
    ensures Pass(langs, ctx, marks0).supported + Pass(langs, ctx, marks0).unsupported
         == OrthoCount(langs, ctx.script)
  {
    PassFacts(langs, ctx, marks0);
  }

  /** The rows are exactly the orthographies the two flags let through: as many
      as there are complete ones when "show completed" is on plus incomplete
      ones when "show incomplete" is on, and none of another kind. With both
      flags off there are no rows, while the counters still count. */
  lemma PassVisibility(langs: seq<Language>, ctx: Context, marks0: seq<char>)
    ensures var r := Pass(langs, ctx, marks0);
      && |r.items| == (if ctx.showSupported then r.supported else 0)
                    + (if ctx.showUnsupported then r.unsupported else 0)
      && (forall i :: 0 <= i < |r.items| ==>
            (r.items[i].missing.l == [] ==> ctx.showSupported)
            && (r.items[i].missing.l != [] ==> ctx.showUnsupported))
      && (!ctx.showSupported && !ctx.showUnsupported ==> r.items == [])
  {
    PassFacts(langs, ctx, marks0);
  }

  /** The session's marks grow by the marks of every orthography of the
      script, in order. */
  lemma PassMarks(langs: seq<Language>, ctx: Context, marks0: seq<char>)
    ensures Pass(langs, ctx, marks0).marks == marks0 + ScriptMarks(langs, ctx.script)
  {
    PassFacts(langs, ctx, marks0);
  }

  /** The returned rows: ascending by the length of the Missing Chars string,
      rows of equal length in the order the pass produced them, and nothing
      added or lost. */
  lemma LangsForScriptOrder(langs: seq<Language>, ctx: Context, marks0: seq<char>, k: int)
    ensures var items := Pass(langs, ctx, marks0).items;
      var rows := LangsForScript(langs, ctx, marks0);
      && (forall i, j :: 0 <= i < j < |rows| ==> MissingLength(rows[i]) <= MissingLength(rows[j]))
      && multiset(rows) == multiset(items)
      && Select(rows, HasKey(MissingLength, k), true) == Select(items, HasKey(MissingLength, k), true)
  {
    SortByKeyFacts(Pass(langs, ctx, marks0).items, MissingLength);
    SortByKeyStable(Pass(langs, ctx, marks0).items, MissingLength, k);
  }

  // ---- what a row is made of ----

  /** `row` is the row of an orthography of `ctx.script` of a language of `db`:
      its two cells display that orthography's unsupported and supported
      characters given some marks. */
  ghost predicate RowOf(row: Row, db: seq<Language>, ctx: Context) {
    exists lang: Language, o: Orthography, m: seq<char> ::
      && lang in db && lang.orthographies.Some? && o in lang.orthographies.value
      && o.script == ctx.script
      && row == MakeRow(lang, o, DisplayAll(UnsupportedChars(o, ctx), m), DisplayAll(SupportedChars(o, ctx), m))
  }

  lemma {:induction false} FoldOrthosRows(st: PassState, lang: Language, os: seq<Orthography>, ctx: Context, db: seq<Language>)
    requires lang in db && lang.orthographies.Some?
    requires forall j :: 0 <= j < |os| ==> os[j] in lang.orthographies.value && os[j].script == ctx.script
    requires forall i :: 0 <= i < |st.items| ==> RowOf(st.items[i], db, ctx)
    ensures forall i :: 0 <= i < |FoldOrthos(st, lang, os, ctx).items| ==>
      RowOf(FoldOrthos(st, lang, os, ctx).items[i], db, ctx)
  {
    if os != [] {
      var n := |os| - 1;
      assert forall j :: 0 <= j < n ==> os[..n][j] == os[j];
      FoldOrthosRows(st, lang, os[..n], ctx, db);
      var mid := FoldOrthos(st, lang, os[..n], ctx);
      var o, m := os[n], mid.marks + os[n].baseMarks;
      var row := MakeRow(lang, o, DisplayAll(UnsupportedChars(o, ctx), m), DisplayAll(SupportedChars(o, ctx), m));
      assert RowOf(row, db, ctx);
      var r := FoldOrthos(st, lang, os, ctx);
      assert r == StepOrtho(mid, lang, o, ctx);
      forall i | 0 <= i < |r.items| ensures RowOf(r.items[i], db, ctx) {
        if i < |mid.items| {
          assert r.items[i] == mid.items[i];
        } else {
          assert r.items[i] == row;
        }
      }
    }
  }

  lemma {:induction false} PassRowsIn(langs: seq<Language>, ctx: Context, marks0: seq<char>, db: seq<Language>)
    requires forall i :: 0 <= i < |langs| ==> langs[i] in db
    ensures forall i :: 0 <= i < |Pass(langs, ctx, marks0).items| ==>
      RowOf(Pass(langs, ctx, marks0).items[i], db, ctx)
  {
    if langs != [] {
      var n := |langs| - 1;
      assert forall i :: 0 <= i < n ==> langs[..n][i] == langs[i];
      PassRowsIn(langs[..n], ctx, marks0, db);
      var prev, last := Pass(langs[..n], ctx, marks0), langs[n];
      assert Pass(langs, ctx, marks0) == StepLang(prev, last, ctx);
      if last.orthographies.Some? {
        var os := last.orthographies.value;
        var orthos := ScriptOrthos(os, ctx.script);
        var st := prev.(total := prev.total + |orthos|);
        assert st.items == prev.items;
        SelectMembers(os, OfScript(ctx.script), true);
        FoldOrthosRows(st, last, orthos, ctx, db);
      }
    }
  }

  /** Every row of a pass is the row of one orthography of the script of one
      of the languages, each cell displaying that orthography's unsupported
      or supported characters given some marks. */
  lemma PassRows(langs: seq<Language>, ctx: Context, marks0: seq<char>)
    ensures forall i :: 0 <= i < |Pass(langs, ctx, marks0).items| ==>
      RowOf(Pass(langs, ctx, marks0).items[i], langs, ctx)
  {
    PassRowsIn(langs, ctx, marks0, langs);
  }

  /** No base character or mark of `o` is Python whitespace. */
  predicate SpaceFree(o: Orthography) {
    && (forall i :: 0 <= i < |o.baseChars| ==> !IsSpace(o.baseChars[i]))
    && (forall i :: 0 <= i < |o.baseMarks| ==> !IsSpace(o.baseMarks[i]))
  }

  /** No orthography in the database has a whitespace base character or mark. */
  ghost predicate DatabaseSpaceFree(db: seq<Language>) {
    forall lang: Language, o: Orthography ::
      lang in db && lang.orthographies.Some? && o in lang.orthographies.value ==> SpaceFree(o)
  }

  /** The characters an orthography is split into are among its base
      characters and marks, so they are free of whitespace when those are. */
  lemma SplitCharsSpaceFree(o: Orthography, ctx: Context)
    requires SpaceFree(o)
    ensures forall i :: 0 <= i < |UnsupportedChars(o, ctx)| ==> !IsSpace(UnsupportedChars(o, ctx)[i])
    ensures forall i :: 0 <= i < |SupportedChars(o, ctx)| ==> !IsSpace(SupportedChars(o, ctx)[i])
  {
    var req := RequiredChars(o);
    CharLessIsStrictTotal();
    assert forall c :: c in req ==> c in o.baseChars || c in o.baseMarks;
    SelectMembers(req, InFont(ctx.glyphset, ctx.lookup), true);
    SelectMembers(req, InFont(ctx.glyphset, ctx.lookup), false);
  }

  // ---- dependence on the session's marks ----

  lemma DisplayAllSameMarks(cs: seq<char>, m1: seq<char>, m2: seq<char>)
    requires forall c :: c in m1 <==> c in m2
    ensures DisplayAll(cs, m1) == DisplayAll(cs, m2)
  {
  }

  lemma {:induction false} FoldOrthosSameMarks(st1: PassState, st2: PassState, lang: Language,
                                               os: seq<Orthography>, ctx: Context)
    requires st1.(marks := st2.marks) == st2
    requires forall c :: c in st1.marks <==> c in st2.marks
    ensures var r1, r2 := FoldOrthos(st1, lang, os, ctx), FoldOrthos(st2, lang, os, ctx);
      r1.(marks := r2.marks) == r2 && forall c :: c in r1.marks <==> c in r2.marks
  {
    if os != [] {
      var os' := os[..|os| - 1];
      var o := os[|os| - 1];
      FoldOrthosSameMarks(st1, st2, lang, os', ctx);
      var m1 := FoldOrthos(st1, lang, os', ctx).marks + o.baseMarks;
      var m2 := FoldOrthos(st2, lang, os', ctx).marks + o.baseMarks;
      DisplayAllSameMarks(UnsupportedChars(o, ctx), m1, m2);
      DisplayAllSameMarks(SupportedChars(o, ctx), m1, m2);
    }
  }

  /** A pass sees the session's marks only as a set: which marks, not how
      often or in which order. */
  lemma {:induction false} PassSameMarks(langs: seq<Language>, ctx: Context, m1: seq<char>, m2: seq<char>)
    requires forall c :: c in m1 <==> c in m2
    ensures Pass(langs, ctx, m1).(marks := Pass(langs, ctx, m2).marks) == Pass(langs, ctx, m2)
    ensures forall c :: c in Pass(langs, ctx, m1).marks <==> c in Pass(langs, ctx, m2).marks
  {
    if langs != [] {
      var langs' := langs[..|langs| - 1];
      var lang := langs[|langs| - 1];
      PassSameMarks(langs', ctx, m1, m2);
      var st1, st2 := Pass(langs', ctx, m1), Pass(langs', ctx, m2);
      if lang.orthographies.Some? {
        var orthos := ScriptOrthos(lang.orthographies.value, ctx.script);
        FoldOrthosSameMarks(st1.(total := st1.total + |orthos|), st2.(total := st2.total + |orthos|),
                            lang, orthos, ctx);
      }
    }
  }

  /** Once the session has seen every mark of the script, asking again for the
      same script gives the same rows and the same counters: from the second
      call on, the call is idempotent. */
  lemma RepeatAfterMarksSeen(langs: seq<Language>, ctx: Context, marks0: seq<char>)
    requires forall i :: 0 <= i < |ScriptMarks(langs, ctx.script)| ==> ScriptMarks(langs, ctx.script)[i] in marks0
    ensures var again := Pass(langs, ctx, marks0).marks;
      && LangsForScript(langs, ctx, again) == LangsForScript(langs, ctx, marks0)
      && Pass(langs, ctx, again).(marks := marks0) == Pass(langs, ctx, marks0).(marks := marks0)
  {
    var again := Pass(langs, ctx, marks0).marks;
    PassMarks(langs, ctx, marks0);
    assert forall c :: c in again <==> c in marks0;
    PassSameMarks(langs, ctx, again, marks0);
  }

  /** After any call for a script, the session has seen all of its marks. */
  lemma MarksSeenAfterPass(langs: seq<Language>, ctx: Context, marks0: seq<char>)
    ensures var after := Pass(langs, ctx, marks0).marks;
      forall i :: 0 <= i < |ScriptMarks(langs, ctx.script)| ==> ScriptMarks(langs, ctx.script)[i] in after
  {
    PassMarks(langs, ctx, marks0);
    var sm := ScriptMarks(langs, ctx.script);
    forall i | 0 <= i < |sm| ensures sm[i] in marks0 + sm {
      assert (marks0 + sm)[|marks0| + i] == sm[i];
    }
  }
}

/** The plugin window's state and the methods that change it: the glyph-info
    cache, the coverage pass for one script (proved to compute what module
    Coverage specifies) and the scripts catalogue (proved against module
    Catalogue). */
module Plugin {
  import opened Wrappers
  import opened PyText
  import opened PySort
  import opened Hyperglot
  import opened GlyphsHost
  import opened Coverage
  import opened Catalogue
  import opened Tables
  import opened Exports
  import opened Cells

  /** The glyph names the editor gives the characters `cs`, in order. */
  function GlyphNames(cs: seq<char>, lookup: char -> GlyphInfo): (r: seq<string>)
    ensures |r| == |cs|
  {
    seq(|cs|, i requires 0 <= i < |cs| => lookup(cs[i]).name)
  }

  /** `[inverse[g] for g in names]`. */
  function Resolve(names: seq<string>, inverse: map<string, char>): (r: seq<char>)
    requires forall i :: 0 <= i < |names| ==> names[i] in inverse
    ensures |r| == |names|
  {
    seq(|names|, i requires 0 <= i < |names| => inverse[names[i]])
  }

  /** Mapping characters to glyph names and back through an inverse that
      agrees with the lookup gives the characters back. */
  lemma ResolveGlyphNames(cs: seq<char>, lookup: char -> GlyphInfo, inverse: map<string, char>)
    requires forall i :: 0 <= i < |cs| ==> lookup(cs[i]).name in inverse && inverse[lookup(cs[i]).name] == cs[i]
    ensures forall i :: 0 <= i < |cs| ==> GlyphNames(cs, lookup)[i] in inverse
    ensures Resolve(GlyphNames(cs, lookup), inverse) == cs
  {
  }

  lemma GlyphNamesAppend(cs: seq<char>, c: char, lookup: char -> GlyphInfo)
    ensures GlyphNames(cs + [c], lookup) == GlyphNames(cs, lookup) + [lookup(c).name]
  {
  }

  lemma GlyphNamesPrefix(cs: seq<char>, i: int, lookup: char -> GlyphInfo)
    requires 0 <= i < |cs|
    ensures GlyphNames(cs[..i + 1], lookup) == GlyphNames(cs[..i], lookup) + [lookup(cs[i]).name]
  {
  }

  /** A script picked from the scripts table has an orthography, so the
      status-bar percentage of line 420 after its pass is defined and lies
      in 0..100. */
  lemma CataloguedScriptPercent(langs: seq<Language>, i: int, ctx: Context, marks0: seq<char>)
    requires 0 <= i < |ScriptsAndSpeakers(langs)| && ctx.script == ScriptsAndSpeakers(langs)[i].0
    ensures var st := Pass(langs, ctx, marks0);
      && Percent(st.supported, st.total).Success?
      && 0 <= Percent(st.supported, st.total).value <= 100
  {
    ScriptsAndSpeakersEntries(langs);
    PassPercent(langs, ctx, marks0);
  }

  /** Lines 660-669 and 672-681: the tokens of the given cells in order,
      each `◌x` replaced in place by `x` when `strip` holds, then
      `sorted(list(set(...)))`. */
  method CollectSelected(cells: seq<CharList>, strip: bool) returns (r: seq<string>)
    ensures r == SelectedChars(cells, strip)
  {
    var chars: seq<string> := [];
    for k := 0 to |cells|
      invariant chars == Tokens(cells[..k])
    {
      assert cells[..k + 1][..k] == cells[..k];
      chars := chars + Split(cells[k].Str());
    }
    assert cells[..|cells|] == cells;
    if strip {
      ghost var orig := chars;
      for i := 0 to |chars|
        invariant |chars| == |orig|
        invariant forall j :: 0 <= j < i ==> chars[j] == Strip(orig[j])
        invariant forall j :: i <= j < |chars| ==> chars[j] == orig[j]
      {
        var c := chars[i];
        if |c| == 2 && c[0] == DottedCircle {
          chars := chars[i := [c[1]]];
        }
      }
      assert chars == StripAll(orig);
    }
    StrLessIsStrictTotal();
    r := SortedSet(chars, StrLess());
  }

  /** The Missing Chars cells of some rows. */
  function MissingCells(rows: seq<Row>): (r: seq<CharList>)
    ensures |r| == |rows|
  {
    seq(|rows|, i requires 0 <= i < |rows| => rows[i].missing)
  }

  /** The Supported cells of some rows. */
  function SupportedCells(rows: seq<Row>): (r: seq<CharList>)
    ensures |r| == |rows|
  {
    seq(|rows|, i requires 0 <= i < |rows| => rows[i].supported)
  }

  /** A cell of a row built from an orthography of a whitespace-free
      database displays whitespace-free characters given some marks. */
  lemma RowCell(row: Row, db: seq<Language>, ctx: Context, missing: bool) returns (cs: seq<char>, m: seq<char>)
    requires DatabaseSpaceFree(db) && RowOf(row, db, ctx)
    ensures (if missing then row.missing else row.supported) == CharList(DisplayAll(cs, m))
    ensures forall i :: 0 <= i < |cs| ==> !IsSpace(cs[i])
  {
    var lang: Language, o: Orthography, m' :|
      && lang in db && lang.orthographies.Some? && o in lang.orthographies.value
      && o.script == ctx.script
      && row == MakeRow(lang, o, DisplayAll(UnsupportedChars(o, ctx), m'), DisplayAll(SupportedChars(o, ctx), m'));
    SplitCharsSpaceFree(o, ctx);
    cs, m := if missing then UnsupportedChars(o, ctx) else SupportedChars(o, ctx), m';
  }

  lemma CellsSnoc(sel: seq<Row>)
    requires sel != []
    ensures var n := |sel| - 1;
      && MissingCells(sel) == MissingCells(sel[..n]) + [sel[n].missing]
      && SupportedCells(sel) == SupportedCells(sel[..n]) + [sel[n].supported]
  {
  }

  /** Rows built from orthographies of a whitespace-free database have cells
      of display form: there are characters `css` and marks `markss` that the
      selected rows' Missing Chars (or Supported) cells display, and `css`
      holds no whitespace. */
  lemma {:induction false} SelectionDisplays(sel: seq<Row>, db: seq<Language>, ctx: Context, missing: bool)
    returns (css: seq<seq<char>>, markss: seq<seq<char>>)
    requires DatabaseSpaceFree(db)
    requires forall k :: 0 <= k < |sel| ==> RowOf(sel[k], db, ctx)
    ensures Displays(if missing then MissingCells(sel) else SupportedCells(sel), css, markss)
    ensures NoSpaceIn(css)
  {
    if sel == [] {
      css, markss := [], [];
    } else {
      var n := |sel| - 1;
      assert forall k :: 0 <= k < n ==> sel[..n][k] == sel[k];
      var css0, markss0 := SelectionDisplays(sel[..n], db, ctx, missing);
      var cs, m := RowCell(sel[n], db, ctx, missing);
      CellsSnoc(sel);
      DisplaysSnoc(if missing then MissingCells(sel[..n]) else SupportedCells(sel[..n]), css0, markss0,
        if missing then sel[n].missing else sel[n].supported, cs, m);
      css, markss := css0 + [cs], markss0 + [m];
    }
  }

  /** Rows picked from the languages table of a whitespace-free database:
      the codepoint copies of lines 696-709 never raise and give one line per
      missing character, reading back to its code point, in increasing order;
      the stripped Supported selection the font-view actions use holds single
      characters only. */
  lemma SelectionCodepoints(sel: seq<Row>, langs: seq<Language>, ctx: Context, marks0: seq<char>, notation: Notation)
    requires DatabaseSpaceFree(langs)
    requires forall k :: 0 <= k < |sel| ==> sel[k] in LangsForScript(langs, ctx, marks0)
    ensures CodepointsReadBack(SelectedChars(MissingCells(sel), true), notation)
    ensures forall j :: 0 <= j < |SelectedChars(SupportedCells(sel), true)| ==>
      |SelectedChars(SupportedCells(sel), true)[j]| == 1
  {
    var items := Pass(langs, ctx, marks0).items;
    SortByKeyFacts(items, MissingLength);
    PassRows(langs, ctx, marks0);
    forall k | 0 <= k < |sel| ensures RowOf(sel[k], langs, ctx) {
      assert sel[k] in multiset(items);
      var i :| 0 <= i < |items| && items[i] == sel[k];
    }
    var css, markss := SelectionDisplays(sel, langs, ctx, true);
    CodepointsOfDisplayed(MissingCells(sel), css, markss, notation);
    css, markss := SelectionDisplays(sel, langs, ctx, false);
    SelectedOfDisplayed(SupportedCells(sel), css, markss);
  }

  /** Lines 308-313: the glyph names of `cs` split by membership in the
      font, each side in order. */
  method PartitionNames(cs: seq<char>, names: seq<string>, glyphset: set<string>, lookup: char -> GlyphInfo)
    returns (supNames: seq<string>, unsupNames: seq<string>)
    requires names == GlyphNames(cs, lookup)
    ensures supNames == GlyphNames(Select(cs, InFont(glyphset, lookup), true), lookup)
    ensures unsupNames == GlyphNames(Select(cs, InFont(glyphset, lookup), false), lookup)
  {
    var p := InFont(glyphset, lookup);
    supNames, unsupNames := [], [];
    var i := 0;
    while i < |names|
      invariant 0 <= i <= |names|
      invariant supNames == GlyphNames(Select(cs[..i], p, true), lookup)
      invariant unsupNames == GlyphNames(Select(cs[..i], p, false), lookup)
    {
      assert cs[..i + 1] == cs[..i] + [cs[i]];
      SelectAppend(cs[..i], cs[i], p, true);
      SelectAppend(cs[..i], cs[i], p, false);
      if names[i] in glyphset {
        GlyphNamesAppend(Select(cs[..i], p, true), cs[i], lookup);
        supNames := supNames + [names[i]];
      } else {
        GlyphNamesAppend(Select(cs[..i], p, false), cs[i], lookup);
        unsupNames := unsupNames + [names[i]];
      }
      i := i + 1;
    }
    assert cs[..|cs|] == cs;
  }

  /** The glyph-info cache holds the editor's answers and the inverse map is
      exactly its inverse. */
  ghost predicate CacheConsistent(lookup: char -> GlyphInfo, info: map<char, GlyphInfo>, chars: map<string, char>)
  {
    && (forall c :: c in info ==> info[c] == lookup(c))
    && (forall c :: c in info ==> lookup(c).name in chars && chars[lookup(c).name] == c)
    && (forall g :: g in chars ==> chars[g] in info && lookup(chars[g]).name == g)
  }

  class TalkingLeaves {
    /** The language database, in the order `hg.keys()` yields it. */
    const hg: seq<Language>
    /** The editor's `glyphInfoForUnicode`, fixed for the session. */
    const lookup: char -> GlyphInfo

    var glyphInfoByChar: map<char, GlyphInfo>
    var charsByGlyphName: map<string, char>
    /** The marks of every orthography evaluated so far this session. */
    var allMarks: seq<char>
    var scriptsLangCount: map<string, int>
    var currentScriptSupported: int
    var currentScriptUnsupported: int
    /** The characters the editor has been asked about, in order. */
    ghost var hostQueries: seq<char>

    /** The editor gives distinct characters distinct names, and the cache
        fields are consistent with it. */
    ghost predicate Valid()
      reads this
    {
      DistinctNames(lookup) && CacheConsistent(lookup, glyphInfoByChar, charsByGlyphName)
    }

    /** The state `__init__` sets up before the tables are filled. */
    constructor(hg: seq<Language>, lookup: char -> GlyphInfo)
      requires DistinctNames(lookup)
      ensures Valid()
      ensures this.hg == hg && this.lookup == lookup
      ensures glyphInfoByChar == map[] && charsByGlyphName == map[] && allMarks == []
      ensures scriptsLangCount == map[] && hostQueries == []
    {
      this.hg := hg;
      this.lookup := lookup;
      glyphInfoByChar := map[];
      charsByGlyphName := map[];
      allMarks := [];
      scriptsLangCount := map[];
      currentScriptSupported := 0;
      currentScriptUnsupported := 0;
      hostQueries := [];
    }

    /** `glyphInfoForChar_`: the editor is asked only about a character not
        yet cached; the answer is cached with its inverse entry, and a cached
        answer is returned unchanged. */
    method GlyphInfoForChar(c: char) returns (info: GlyphInfo)
      requires Valid()
      modifies this`glyphInfoByChar, this`charsByGlyphName, this`hostQueries
      ensures Valid()
      ensures info == lookup(c)
      ensures glyphInfoByChar == old(glyphInfoByChar)[c := lookup(c)]
      ensures charsByGlyphName == old(charsByGlyphName)[lookup(c).name := c]
      ensures hostQueries == old(hostQueries) + (if c in old(glyphInfoByChar) then [] else [c])
    {
      if c !in glyphInfoByChar {
        var got := lookup(c);
        glyphInfoByChar := glyphInfoByChar[c := got];
        charsByGlyphName := charsByGlyphName[got.name := c];
        hostQueries := hostQueries + [c];
      } else {
        assert glyphInfoByChar == glyphInfoByChar[c := lookup(c)];
        assert charsByGlyphName == charsByGlyphName[lookup(c).name := c];
      }
      info := glyphInfoByChar[c];
    }

    /** Line 305: the glyph names of `cs`, each resolved through the cache. */
    method QueryNames(cs: seq<char>) returns (names: seq<string>)
      requires Valid()
      modifies this`glyphInfoByChar, this`charsByGlyphName, this`hostQueries
      ensures Valid()
      ensures names == GlyphNames(cs, lookup)
      ensures forall k :: 0 <= k < |cs| ==> cs[k] in glyphInfoByChar
    {
      names := [];
      var i := 0;
      while i < |cs|
        invariant 0 <= i <= |cs|
        invariant Valid()
        invariant names == GlyphNames(cs[..i], lookup)
        invariant forall k :: 0 <= k < i ==> cs[k] in glyphInfoByChar
      {
        GlyphNamesPrefix(cs, i, lookup);
        var info := GlyphInfoForChar(cs[i]);
        names := names + [info.name];
        i := i + 1;
      }
      assert cs[..|cs|] == cs;
    }

    /** Lines 297-316: the required characters of `o` resolved to glyph
        names, split by the font's glyph names, and mapped back to characters. */
    method EvaluateOrthography(o: Orthography, ctx: Context) returns (sup: seq<char>, unsup: seq<char>)
      requires Valid() && ctx.lookup == lookup
      modifies this`glyphInfoByChar, this`charsByGlyphName, this`hostQueries
      ensures Valid()
      ensures sup == SupportedChars(o, ctx) && unsup == UnsupportedChars(o, ctx)
    {
      var req := RequiredChars(o);
      var names := QueryNames(req);
      var supNames, unsupNames := PartitionNames(req, names, ctx.glyphset, lookup);
      var p := InFont(ctx.glyphset, lookup);
      var s, u := Select(req, p, true), Select(req, p, false);
      SelectMembers(req, p, true);
      SelectMembers(req, p, false);
      ResolveGlyphNames(s, lookup, charsByGlyphName);
      ResolveGlyphNames(u, lookup, charsByGlyphName);
      sup := Resolve(supNames, charsByGlyphName);
      unsup := Resolve(unsupNames, charsByGlyphName);
    }

    /** The pass state the fields and the local list of rows stand for. */
    ghost function StateOf(rows: seq<Row>, script: string): PassState
      reads this
      requires script in scriptsLangCount
    {
      PassState(rows, allMarks, scriptsLangCount[script], currentScriptSupported, currentScriptUnsupported)
    }

    /** Lines 297-343 for one orthography `o` of `lang`: the state afterwards
        is the specification's `StepOrtho` of the state before. */
    method EvaluateInto(rows: seq<Row>, lang: Language, o: Orthography, ctx: Context) returns (rows': seq<Row>)
      requires Valid() && ctx.lookup == lookup && ctx.script in scriptsLangCount
      modifies this
      ensures Valid() && ctx.script in scriptsLangCount
      ensures scriptsLangCount == old(scriptsLangCount)
      ensures StateOf(rows', ctx.script) == StepOrtho(old(StateOf(rows, ctx.script)), lang, o, ctx)
    {
      var sup, unsup := EvaluateOrthography(o, ctx);
      allMarks := allMarks + o.baseMarks;
      var unsupDisplay := DisplayAll(unsup, allMarks);
      var supDisplay := DisplayAll(sup, allMarks);
      if |unsup| > 0 {
        currentScriptUnsupported := currentScriptUnsupported + 1;
      } else {
        currentScriptSupported := currentScriptSupported + 1;
      }
      rows' := rows;
      if (|unsup| >= 1 && ctx.showUnsupported) || (|unsup| == 0 && ctx.showSupported) {
        rows' := rows + [MakeRow(lang, o, unsupDisplay, supDisplay)];
      }
    }

    /** Lines 297-343 for the orthographies `orthos` of `lang`, in order. */
    method EvaluateOrthos(rows: seq<Row>, lang: Language, orthos: seq<Orthography>, ctx: Context)
      returns (rows': seq<Row>)
      requires Valid() && ctx.lookup == lookup && ctx.script in scriptsLangCount
      modifies this
      ensures Valid() && scriptsLangCount == old(scriptsLangCount)
      ensures StateOf(rows', ctx.script) == FoldOrthos(old(StateOf(rows, ctx.script)), lang, orthos, ctx)
    {
      rows' := rows;
      ghost var start := StateOf(rows, ctx.script);
      var j := 0;
      while j < |orthos|
        invariant 0 <= j <= |orthos|
        invariant Valid()
        invariant scriptsLangCount == old(scriptsLangCount)
        invariant StateOf(rows', ctx.script) == FoldOrthos(start, lang, orthos[..j], ctx)
      {
        FoldOrthosPrefix(start, lang, orthos, j, ctx);
        rows' := EvaluateInto(rows', lang, orthos[j], ctx);
        j := j + 1;
      }
      assert orthos[..|orthos|] == orthos;
    }

    /** Lines 278-343 for one language: the state afterwards is the
        specification's `StepLang` of the state before. */
    method EvaluateLanguage(rows: seq<Row>, lang: Language, ctx: Context) returns (rows': seq<Row>)
      requires Valid() && ctx.lookup == lookup && ctx.script in scriptsLangCount
      modifies this
      ensures Valid() && ctx.script in scriptsLangCount
      ensures scriptsLangCount == old(scriptsLangCount)[ctx.script := scriptsLangCount[ctx.script]]
      ensures StateOf(rows', ctx.script) == StepLang(old(StateOf(rows, ctx.script)), lang, ctx)
    {
      rows' := rows;
      if lang.orthographies.Some? {
        var orthos := ScriptOrthos(lang.orthographies.value, ctx.script);
        if |orthos| > 0 {
          scriptsLangCount := scriptsLangCount[ctx.script := scriptsLangCount[ctx.script] + |orthos|];
        }
        rows' := EvaluateOrthos(rows, lang, orthos, ctx);
      }
    }

    /** The loop of lines 278-343 over the whole database, from the reset
        counters of lines 272-274. */
    method EvaluateAll(ctx: Context) returns (rows: seq<Row>)
      requires Valid() && ctx.lookup == lookup && ctx.script in scriptsLangCount
      requires StateOf([], ctx.script) == Pass([], ctx, allMarks)
      modifies this
      ensures Valid() && ctx.script in scriptsLangCount
      ensures scriptsLangCount == old(scriptsLangCount)[ctx.script := scriptsLangCount[ctx.script]]
      ensures StateOf(rows, ctx.script) == Pass(hg, ctx, old(allMarks))
    {
      ghost var marks0 := allMarks;
      rows := [];
      var i := 0;
      while i < |hg|
        invariant 0 <= i <= |hg|
        invariant Valid()
        invariant ctx.script in scriptsLangCount
        invariant scriptsLangCount == old(scriptsLangCount)[ctx.script := scriptsLangCount[ctx.script]]
        invariant StateOf(rows, ctx.script) == Pass(hg[..i], ctx, marks0)
      {
        PassPrefix(hg, i, ctx, marks0);
        rows := EvaluateLanguage(rows, hg[i], ctx);
        i := i + 1;
      }
      assert hg[..|hg|] == hg;
    }

    /** Lines 269-343: the counters of lines 272-274 reset, then the loop
        over the database. The rows, the session's marks and the three
        counters it leaves are those of the specification `Pass`. */
    method CollectRows(ctx: Context) returns (rows: seq<Row>)
      requires Valid() && ctx.lookup == lookup
      modifies this
      ensures Valid()
      ensures var st := Pass(hg, ctx, old(allMarks));
        && rows == st.items
        && allMarks == st.marks
        && scriptsLangCount == old(scriptsLangCount)[ctx.script := st.total]
        && currentScriptSupported == st.supported
        && currentScriptUnsupported == st.unsupported
    {
      scriptsLangCount := scriptsLangCount[ctx.script := 0];
      currentScriptUnsupported := 0;
      currentScriptSupported := 0;
      assert StateOf([], ctx.script) == Pass([], ctx, allMarks);
      rows := EvaluateAll(ctx);
    }

    /** `getLangsForScript_`: the rows of one pass over the database for
        `script`, sorted by the length of their Missing Chars string, with the
        state that pass leaves. */
    method GetLangsForScript(script: string, glyphset: set<string>, showSupported: bool, showUnsupported: bool)
      returns (items: seq<Row>)
      requires Valid()
      modifies this
      ensures Valid()
      ensures items == LangsForScript(hg, Context(script, glyphset, lookup, showSupported, showUnsupported), old(allMarks))
      ensures var st := Pass(hg, Context(script, glyphset, lookup, showSupported, showUnsupported), old(allMarks));
        && allMarks == st.marks
        && scriptsLangCount == old(scriptsLangCount)[script := st.total]
        && currentScriptSupported == st.supported
        && currentScriptUnsupported == st.unsupported
    {
      var ctx := Context(script, glyphset, lookup, showSupported, showUnsupported);
      var rows := CollectRows(ctx);
      items := SortByKey(rows, MissingLength);
    }

    /** Lines 364-372: the scripts in order of first appearance and their
        speaker sums, as module Catalogue tallies them. */
    method TallyScripts() returns (t: Tally)
      ensures t == TallyLangs(hg)
    {
      var scripts: seq<string> := [];
      var speakers: map<string, int> := map[];
      for i := 0 to |hg|
        invariant Tally(scripts, speakers) == TallyLangs(hg[..i])
      {
        assert hg[..i + 1][..i] == hg[..i];
        var lang := hg[i];
        var orthos := OrthosOf(lang);
        ghost var start := Tally(scripts, speakers);
        for j := 0 to |orthos|
          invariant Tally(scripts, speakers) == TallyOrthos(start, lang, orthos[..j])
        {
          assert orthos[..j + 1][..j] == orthos[..j];
          var sc := orthos[j].script;
          if sc !in scripts {
            scripts := scripts + [sc];
            speakers := speakers[sc := 0];
          }
          speakers := speakers[sc := speakers[sc] + LangSpeakers(lang)];
        }
        assert orthos[..|orthos|] == orthos;
      }
      assert hg[..|hg|] == hg;
      t := Tally(scripts, speakers);
    }

    /** `getScriptsAndSpeakers`: the scripts of all orthographies with their
        speaker totals, as module Catalogue specifies them. */
    method GetScriptsAndSpeakers() returns (r: seq<(string, int)>)
      ensures r == ScriptsAndSpeakers(hg)
    {
      var t := TallyScripts();
      r := SortByKey(Pairs(t), NegSpeakers);
    }

    /** `tableFrom2dArray_withHeaders_`: one dictionary per row, built column
        by column; IndexError for a row longer than the identifiers. */
    method TableFrom2dArray<V>(rows: seq<seq<V>>, ids: seq<string>) returns (r: Result<seq<map<string, V>>>)
      ensures r == Table(rows, ids)
    {
      var items: seq<map<string, V>> := [];
      for k := 0 to |rows|
        invariant Table(rows[..k], ids) == Success(items)
      {
        assert rows[..k + 1][..k] == rows[..k];
        var d: map<string, V> := map[];
        for i := 0 to |rows[k]|
          invariant RowDict(rows[k][..i], ids) == Success(d)
        {
          assert rows[k][..i + 1][..i] == rows[k][..i];
          if i >= |ids| {
            TableFacts(rows, ids);
            return Failure(IndexError);
          }
          d := d[ids[i] := rows[k][i]];
        }
        assert rows[k][..|rows[k]|] == rows[k];
        items := items + [d];
      }
      assert rows[..|rows|] == rows;
      r := Success(items);
    }

    /** `getSelectedMissingChars`: the distinct tokens of the selected rows'
        Missing Chars cells, sorted, dotted circles removed when `strip`. */
    method GetSelectedMissingChars(selected: seq<Row>, strip: bool) returns (r: seq<string>)
      ensures r == SelectedChars(MissingCells(selected), strip)
    {
      r := CollectSelected(MissingCells(selected), strip);
    }

    /** `getSelectedSupportedChars`: the same for the Supported cells. */
    method GetSelectedSupportedChars(selected: seq<Row>, strip: bool) returns (r: seq<string>)
      ensures r == SelectedChars(SupportedCells(selected), strip)
    {
      r := CollectSelected(SupportedCells(selected), strip);
    }
  }
}

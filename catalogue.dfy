/** The scripts table of the window (`getScriptsAndSpeakers`): every script
    that some orthography uses, with the speaker counts of the languages that
    write it added up once per orthography, most speakers first. */
module Catalogue {
  import opened Wrappers
  import opened PySort
  import opened Hyperglot
  import opened Coverage

  /** The two collections `getScriptsAndSpeakers` builds: the list of scripts
      in order of first appearance and the running speaker total of each. */
  datatype Tally = Tally(scripts: seq<string>, speakers: map<string, int>)

  /** The list and the dictionary hold the same scripts, each once. */
  ghost predicate Consistent(t: Tally) {
    && (forall sc :: sc in t.speakers <==> sc in t.scripts)
    && Distinct(t.scripts)
  }

  /** `lang.get('orthographies', [])`. */
  function OrthosOf(lang: Language): seq<Orthography> {
    lang.orthographies.GetOr([])
  }

  /** `lang.get('speakers', 0) or 0`. */
  function LangSpeakers(lang: Language): int {
    lang.speakers.GetOr(0)
  }

  /** One orthography of `lang`: its script is appended at first sight, and
      the language's speakers are added to the script's total. */
  function AddOrtho(t: Tally, lang: Language, o: Orthography): (r: Tally)
    requires Consistent(t)
    ensures Consistent(r)
  {
    var sc := o.script;
    var t1 := if sc in t.scripts then t else Tally(t.scripts + [sc], t.speakers[sc := 0]);
    Tally(t1.scripts, t1.speakers[sc := t1.speakers[sc] + LangSpeakers(lang)])
  }

  function TallyOrthos(t: Tally, lang: Language, os: seq<Orthography>): (r: Tally)
    requires Consistent(t)
    ensures Consistent(r)
  {
    if os == [] then t
    else AddOrtho(TallyOrthos(t, lang, os[..|os| - 1]), lang, os[|os| - 1])
  }

  /** The tally after the languages `langs`, in database order. */
  function TallyLangs(langs: seq<Language>): (r: Tally)
    ensures Consistent(r)
  {
    if langs == [] then Tally([], map[])
    else
      var lang := langs[|langs| - 1];
      TallyOrthos(TallyLangs(langs[..|langs| - 1]), lang, OrthosOf(lang))
  }

  /** `speakers.items()`: the dictionary's entries in insertion order. */
  function Pairs(t: Tally): (r: seq<(string, int)>)
    requires Consistent(t)
    ensures |r| == |t.scripts|
  {
    seq(|t.scripts|, i requires 0 <= i < |t.scripts| => (t.scripts[i], t.speakers[t.scripts[i]]))
  }

  /** `sorted(..., key=lambda x: x[1], reverse=True)` is a stable sort in
      ascending order of the negated count. */
  function NegSpeakers(p: (string, int)): int {
    -p.1
  }

  /** The dictionary `getScriptsAndSpeakers` returns, as its entries in order. */
  function ScriptsAndSpeakers(langs: seq<Language>): seq<(string, int)> {
    SortByKey(Pairs(TallyLangs(langs)), NegSpeakers)
  }

  // ---- reference definitions ----

  /** `k` for each orthography of `os` in script `sc`. */
  function OrthoSpeakers(os: seq<Orthography>, sc: string, k: int): int {
    if os == [] then 0
    else OrthoSpeakers(os[..|os| - 1], sc, k) + (if os[|os| - 1].script == sc then k else 0)
  }

  /** The speakers of script `sc`: each language's count, once per orthography in `sc`. */
  function SpeakerSum(langs: seq<Language>, sc: string): int {
    if langs == [] then 0
    else
      var lang := langs[|langs| - 1];
      SpeakerSum(langs[..|langs| - 1], sc) + OrthoSpeakers(OrthosOf(lang), sc, LangSpeakers(lang))
  }

  // ---- lemmas ----

  /** A language's contribution is its speaker count times its number of
      orthographies in the script: a language with two orthographies of one
      script is counted twice. */
  lemma {:induction false} OrthoSpeakersCount(os: seq<Orthography>, sc: string, k: int)
    ensures OrthoSpeakers(os, sc, k) == |ScriptOrthos(os, sc)| * k
  {
    if os != [] {
      OrthoSpeakersCount(os[..|os| - 1], sc, k);
      SelectUnfold(os, OfScript(sc), true);
      var n := |ScriptOrthos(os[..|os| - 1], sc)|;
      assert (n + 1) * k == n * k + k;
    }
  }

  lemma AddOrthoFacts(t: Tally, lang: Language, o: Orthography)
    requires Consistent(t)
    ensures t.scripts <= AddOrtho(t, lang, o).scripts
    ensures forall sc :: sc in AddOrtho(t, lang, o).speakers <==> sc in t.speakers || sc == o.script
    ensures forall sc :: sc in AddOrtho(t, lang, o).speakers ==>
      AddOrtho(t, lang, o).speakers[sc]
        == (if sc in t.speakers then t.speakers[sc] else 0) + (if sc == o.script then LangSpeakers(lang) else 0)
  {
  }

  lemma {:induction false} TallyOrthosFacts(t: Tally, lang: Language, os: seq<Orthography>)
    requires Consistent(t)
    ensures t.scripts <= TallyOrthos(t, lang, os).scripts
    ensures forall sc :: sc in TallyOrthos(t, lang, os).speakers <==> sc in t.speakers || |ScriptOrthos(os, sc)| > 0
    ensures forall sc :: sc in TallyOrthos(t, lang, os).speakers ==>
      TallyOrthos(t, lang, os).speakers[sc]
        == (if sc in t.speakers then t.speakers[sc] else 0) + OrthoSpeakers(os, sc, LangSpeakers(lang))
  {
    if os != [] {
      var os', o := os[..|os| - 1], os[|os| - 1];
      var t' := TallyOrthos(t, lang, os');
      TallyOrthosFacts(t, lang, os');
      AddOrthoFacts(t', lang, o);
      var k := LangSpeakers(lang);
      forall sc
        ensures sc in TallyOrthos(t, lang, os).speakers <==> sc in t.speakers || |ScriptOrthos(os, sc)| > 0
        ensures sc in TallyOrthos(t, lang, os).speakers ==>
          TallyOrthos(t, lang, os).speakers[sc]
            == (if sc in t.speakers then t.speakers[sc] else 0) + OrthoSpeakers(os, sc, k)
      {
        SelectUnfold(os, OfScript(sc), true);
        var r := TallyOrthos(t, lang, os);
        assert r == AddOrtho(t', lang, o);
        if sc in r.speakers {
          var before := if sc in t.speakers then t.speakers[sc] else 0;
          assert sc in t'.speakers ==> t'.speakers[sc] == before + OrthoSpeakers(os', sc, k);
          assert sc !in t'.speakers ==> before + OrthoSpeakers(os', sc, k) == 0 by {
            OrthoSpeakersCount(os', sc, k);
          }
          assert OrthoSpeakers(os, sc, k) == OrthoSpeakers(os', sc, k) + (if o.script == sc then k else 0);
        }
      }
    }
  }

  /** The tally after `langs`: exactly the scripts that some orthography
      uses, each with its speaker sum. */
  lemma {:induction false} TallyFacts(langs: seq<Language>)
    ensures forall sc :: sc in TallyLangs(langs).speakers <==> OrthoCount(langs, sc) > 0
    ensures forall sc :: sc in TallyLangs(langs).speakers ==> TallyLangs(langs).speakers[sc] == SpeakerSum(langs, sc)
  {
    if langs != [] {
      var lang := langs[|langs| - 1];
      var prev := langs[..|langs| - 1];
      TallyFacts(prev);
      TallyOrthosFacts(TallyLangs(prev), lang, OrthosOf(lang));
      forall sc | sc in TallyLangs(langs).speakers
        ensures TallyLangs(langs).speakers[sc] == SpeakerSum(langs, sc)
      {
        var k := LangSpeakers(lang);
        var t' := TallyLangs(prev);
        assert TallyLangs(langs) == TallyOrthos(t', lang, OrthosOf(lang));
        assert SpeakerSum(langs, sc) == SpeakerSum(prev, sc) + OrthoSpeakers(OrthosOf(lang), sc, k);
        assert sc !in t'.speakers ==> SpeakerSum(prev, sc) == 0 by {
          if sc !in t'.speakers { SpeakerSumUnused(prev, sc); }
        }
      }
      forall sc ensures sc in TallyLangs(langs).speakers <==> OrthoCount(langs, sc) > 0 {
        if lang.orthographies.None? {
          assert ScriptOrthos([], sc) == [];
        }
        assert OrthoCount(langs, sc) == OrthoCount(prev, sc) + |ScriptOrthos(OrthosOf(lang), sc)|;
      }
    }
  }

  lemma {:induction false} SpeakerSumUnused(langs: seq<Language>, sc: string)
    requires OrthoCount(langs, sc) == 0
    ensures SpeakerSum(langs, sc) == 0
  {
    if langs != [] {
      var lang := langs[|langs| - 1];
      SpeakerSumUnused(langs[..|langs| - 1], sc);
      OrthoSpeakersCount(OrthosOf(lang), sc, LangSpeakers(lang));
    }
  }

  /** Scripts are listed in order of first appearance: the scripts of a prefix
      of the database are a prefix of the list. */
  lemma {:induction false} TallyPrefix(langs: seq<Language>, n: nat)
    requires n <= |langs|
    ensures TallyLangs(langs[..n]).scripts <= TallyLangs(langs).scripts
    decreases |langs|
  {
    if n < |langs| {
      var lang := langs[|langs| - 1];
      assert langs[..|langs| - 1][..n] == langs[..n];
      TallyPrefix(langs[..|langs| - 1], n);
      TallyOrthosFacts(TallyLangs(langs[..|langs| - 1]), lang, OrthosOf(lang));
    } else {
      assert langs[..n] == langs;
    }
  }

  lemma {:induction false} DistinctCount<T>(s: seq<T>, x: T)
    requires Distinct(s)
    ensures multiset(s)[x] <= 1
  {
    if s != [] {
      var s' := s[..|s| - 1];
      assert s == s' + [s[|s| - 1]];
      DistinctCount(s', x);
    }
  }

  /** A rearrangement of a list without repetitions has none either. */
  lemma DistinctPermutation<T>(a: seq<T>, b: seq<T>)
    requires multiset(a) == multiset(b) && Distinct(b)
    ensures Distinct(a)
  {
    forall i, j | 0 <= i < j < |a| ensures a[i] != a[j] {
      if a[i] == a[j] {
        assert a == a[..j] + a[j..];
        assert a[i] in a[..j] && a[j] in a[j..];
        assert multiset(a)[a[i]] >= 2 by {
          assert multiset(a) == multiset(a[..j]) + multiset(a[j..]);
        }
        DistinctCount(b, a[i]);
      }
    }
  }

  /** The entries are those of the tally, each script once. */
  lemma PairsDistinct(t: Tally)
    requires Consistent(t)
    ensures Distinct(Pairs(t))
    ensures forall i, j :: 0 <= i < j < |Pairs(t)| ==> Pairs(t)[i].0 != Pairs(t)[j].0
  {
  }

  /** A rearrangement of the entries keeps each script once and each entry's count. */
  lemma PermutedPairs(t: Tally, c: seq<(string, int)>)
    requires Consistent(t) && multiset(c) == multiset(Pairs(t))
    ensures forall i, j :: 0 <= i < j < |c| ==> c[i].0 != c[j].0
    ensures forall i :: 0 <= i < |c| ==> c[i].0 in t.speakers && c[i].1 == t.speakers[c[i].0]
    ensures forall sc :: sc in t.speakers ==> exists i :: 0 <= i < |c| && c[i].0 == sc
  {
    var p := Pairs(t);
    PairsDistinct(t);
    DistinctPermutation(c, p);
    forall i | 0 <= i < |c| ensures exists k :: 0 <= k < |p| && c[i] == p[k] {
      assert c[i] in multiset(p);
    }
    forall sc | sc in t.speakers ensures exists i :: 0 <= i < |c| && c[i].0 == sc {
      var a :| 0 <= a < |t.scripts| && t.scripts[a] == sc;
      assert p[a] in multiset(c);
      var i :| 0 <= i < |c| && c[i] == p[a];
    }
  }

  /** The returned dictionary lists scripts in non-increasing order of speakers. */
  lemma ScriptsAndSpeakersOrder(langs: seq<Language>)
    ensures forall i, j :: 0 <= i < j < |ScriptsAndSpeakers(langs)| ==>
      ScriptsAndSpeakers(langs)[i].1 >= ScriptsAndSpeakers(langs)[j].1
  {
    var c := ScriptsAndSpeakers(langs);
    SortByKeyFacts(Pairs(TallyLangs(langs)), NegSpeakers);
    forall i, j | 0 <= i < j < |c| ensures c[i].1 >= c[j].1 {
      assert NegSpeakers(c[i]) <= NegSpeakers(c[j]);
    }
  }

  /** Scripts with the same count keep their order of first appearance. */
  lemma ScriptsAndSpeakersStable(langs: seq<Language>, v: int)
    ensures Select(ScriptsAndSpeakers(langs), HasKey(NegSpeakers, -v), true)
         == Select(Pairs(TallyLangs(langs)), HasKey(NegSpeakers, -v), true)
  {
    StableByCount(Pairs(TallyLangs(langs)), v);
  }

  lemma StableByCount(p: seq<(string, int)>, v: int)
    ensures Select(SortByKey(p, NegSpeakers), HasKey(NegSpeakers, -v), true)
         == Select(p, HasKey(NegSpeakers, -v), true)
  {
    SortByKeyStable(p, NegSpeakers, -v);
  }

  /** The returned dictionary has one entry per script in use, holding its speaker sum. */
  lemma ScriptsAndSpeakersEntries(langs: seq<Language>)
    ensures forall i, j :: 0 <= i < j < |ScriptsAndSpeakers(langs)| ==>
      ScriptsAndSpeakers(langs)[i].0 != ScriptsAndSpeakers(langs)[j].0
    ensures forall i :: 0 <= i < |ScriptsAndSpeakers(langs)| ==>
      && OrthoCount(langs, ScriptsAndSpeakers(langs)[i].0) > 0
      && ScriptsAndSpeakers(langs)[i].1 == SpeakerSum(langs, ScriptsAndSpeakers(langs)[i].0)
    ensures forall sc :: OrthoCount(langs, sc) > 0 ==>
      exists i :: 0 <= i < |ScriptsAndSpeakers(langs)| && ScriptsAndSpeakers(langs)[i].0 == sc
  {
    var t := TallyLangs(langs);
    var c := ScriptsAndSpeakers(langs);
    SortByKeyFacts(Pairs(t), NegSpeakers);
    PermutedPairs(t, c);
    TallyFacts(langs);
  }
}

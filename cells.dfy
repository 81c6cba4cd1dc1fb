/** What the languages table and the status bar show for the values the
    coverage pass computes: the three cell converters, the status-bar
    percentage and the `charList` comparison. */
module Cells {
  import opened Wrappers
  import opened PyText
  import opened Hyperglot
  import opened Coverage

  /** A table cell: the converters return either a text or the number itself. */
  datatype Cell = Text(s: string) | Count(n: int)

  /** `langSpeakersValue_toCell`. */
  function SpeakersCell(value: int): Cell {
    if value == -1 then Text("(no data)") else Count(value)
  }

  /** `langStatusValue_toCell`. */
  function StatusCell(value: string): string {
    if value == "" then "(no data)" else value
  }

  /** `missingValue_toCell`. */
  function MissingCell(value: string): string {
    if value == "" then "(complete)" else value
  }

  /** The speakers cell of a row reads "(no data)" exactly when the database
      gives no count, None, 0 or -1, and otherwise shows the count. */
  lemma SpeakersCellOfRow(lang: Language, o: Orthography, missing: seq<string>, supported: seq<string>)
    ensures var c := SpeakersCell(MakeRow(lang, o, missing, supported).speakers);
      && (c == Text("(no data)") <==> lang.speakers.None? || lang.speakers.value in {0, -1})
      && (c != Text("(no data)") ==> c == Count(lang.speakers.value))
  {
  }

  /** The status cell: an absent status shows as "living", an empty one as
      "(no data)", any other as given. */
  lemma StatusCellOfRow(lang: Language, o: Orthography, missing: seq<string>, supported: seq<string>)
    ensures var c := StatusCell(MakeRow(lang, o, missing, supported).langStatus);
      && (lang.status.None? ==> c == "living")
      && (lang.status == Some("") ==> c == "(no data)")
      && (lang.status.Some? && lang.status.value != "" ==> c == lang.status.value)
  {
  }

  lemma {:induction false} JoinEmpty(sep: string, parts: seq<string>)
    requires forall i :: 0 <= i < |parts| ==> parts[i] != []
    ensures Join(sep, parts) == [] <==> parts == []
  {
    if |parts| > 1 {
      assert Join(sep, parts) == parts[0] + sep + Join(sep, parts[1..]);
    }
  }

  /** The Missing Chars cell of a row whose tokens are non-empty reads
      "(complete)" when nothing is missing and the space-joined tokens otherwise. */
  lemma MissingCellOfList(l: CharList)
    requires forall i :: 0 <= i < |l.l| ==> l.l[i] != []
    ensures l.l == [] ==> MissingCell(l.Str()) == "(complete)"
    ensures l.l != [] ==> MissingCell(l.Str()) == l.Str() && l.Str() != []
  {
    JoinEmpty(" ", l.l);
  }

  lemma JoinSeparatorAfterFirst(sep: string, parts: seq<string>)
    requires |parts| > 1 && sep != []
    ensures |Join(sep, parts)| > |parts[0]| && Join(sep, parts)[|parts[0]|] == sep[0]
  {
    assert Join(sep, parts) == parts[0] + sep + Join(sep, parts[1..]);
  }

  /** Display tokens are one character, or two after the dotted circle
      ("◌x"), so their space-joined list is never the word "(complete)". */
  lemma DisplayNotComplete(cs: seq<char>, marks: seq<char>)
    requires cs != []
    ensures Join(" ", DisplayAll(cs, marks)) != "(complete)"
  {
    var ts := DisplayAll(cs, marks);
    assert ts[0] == Display(cs[0], marks);
    if |ts| == 1 {
      assert Join(" ", ts) == ts[0];
    } else {
      JoinSeparatorAfterFirst(" ", ts);
    }
  }

  /** In a row of the pass, the Missing Chars cell reads "(complete)" exactly
      when the orthography has no unsupported character. */
  lemma MissingCellOfRow(lang: Language, o: Orthography, ctx: Context, marks: seq<char>, supported: seq<string>)
    ensures var row := MakeRow(lang, o, DisplayAll(UnsupportedChars(o, ctx), marks), supported);
      MissingCell(row.missing.Str()) == "(complete)" <==> UnsupportedChars(o, ctx) == []
  {
    var l := CharList(DisplayAll(UnsupportedChars(o, ctx), marks));
    MissingCellOfList(l);
    if UnsupportedChars(o, ctx) != [] {
      DisplayNotComplete(UnsupportedChars(o, ctx), marks);
    }
  }

  /** Python's `a // b`: the quotient rounded towards minus infinity. */
  function FloorDiv(a: int, b: int): (q: int)
    requires b != 0
    ensures b > 0 ==> q * b <= a < q * b + b
    ensures b < 0 ==> q * b + b < a <= q * b
  {
    if b > 0 then a / b else (-a) / (-b)
  }

  /** The percentage of line 420, `supported*100 // total`; ZeroDivisionError
      when the script has no orthography. */
  function Percent(supported: int, total: int): (r: Result<int>)
    ensures r.Failure? <==> total == 0
    ensures r.Failure? ==> r.error == ZeroDivisionError
  {
    if total == 0 then Failure(ZeroDivisionError) else Success(FloorDiv(supported * 100, total))
  }

  /** With `0 <= supported <= total` the percentage lies in 0..100 and is
      100 only when every orthography is complete. */
  lemma PercentBounds(supported: int, total: int)
    requires 0 <= supported <= total && total > 0
    ensures Percent(supported, total).Success?
    ensures 0 <= Percent(supported, total).value <= 100
    ensures Percent(supported, total).value == 100 <==> supported == total
  {
    var q := Percent(supported, total).value;
    assert q * total <= supported * 100 < (q + 1) * total;
    MulCancel(q, 100, total);
    MulCancel(0, q + 1, total);
    if supported == total {
      MulCancel(100, q + 1, total);
    } else {
      assert supported * 100 < 100 * total;
    }
  }

  /** Cancelling a positive factor: `a * c < b * c` gives `a < b`, and
      `a * c <= b * c` gives `a <= b`. */
  lemma MulCancel(a: int, b: int, c: int)
    requires c > 0
    ensures a * c < b * c ==> a < b
    ensures a * c <= b * c ==> a <= b
  {
    if a >= b {
      assert (a - b) * c >= 0;
    }
    if a > b {
      assert (a - b) * c > 0;
    }
  }

  /** After a pass, the status-bar percentage is defined exactly when the
      script has an orthography, and then lies in 0..100. */
  lemma PassPercent(langs: seq<Language>, ctx: Context, marks0: seq<char>)
    ensures var st := Pass(langs, ctx, marks0);
      && (Percent(st.supported, st.total).Success? <==> OrthoCount(langs, ctx.script) > 0)
      && (Percent(st.supported, st.total).Success? ==> 0 <= Percent(st.supported, st.total).value <= 100)
  {
    var st := Pass(langs, ctx, marks0);
    assert st.total == OrthoCount(langs, ctx.script) && 0 <= st.supported <= st.total by {
      PassCounts(langs, ctx, marks0);
      PassFacts(langs, ctx, marks0);
    }
    if st.total > 0 {
      PercentBounds(st.supported, st.total);
    }
  }

  /** `charList.__lt__`: compares the number of tokens, not the text. */
  predicate CharListLess(a: CharList, b: CharList) {
    a.ListLen() < b.ListLen()
  }

  /** `charList.__lt__` is a strict weak order: irreflexive, transitive, and
      lists of equal length are interchangeable. */
  lemma CharListLessIsStrictWeak(a: CharList, b: CharList, c: CharList)
    ensures !CharListLess(a, a)
    ensures CharListLess(a, b) && CharListLess(b, c) ==> CharListLess(a, c)
    ensures !CharListLess(a, b) && !CharListLess(b, a) ==> (CharListLess(a, c) <==> CharListLess(b, c))
    ensures CharListLess(a, b) ==> !CharListLess(b, a)
  {
  }
}

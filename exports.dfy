/** The selected-characters lists (`getSelectedMissingChars`,
    `getSelectedSupportedChars`) and the strings the copy actions put on the
    pasteboard. */
module Exports {
  import opened Wrappers
  import opened PyText
  import opened PySort
  import opened NumFormat
  import opened Coverage

  // ---- the selected characters ----

  /** `cell.split()` of every cell, concatenated in order. */
  function Tokens(cells: seq<CharList>): seq<string> {
    if cells == [] then []
    else Tokens(cells[..|cells| - 1]) + Split(cells[|cells| - 1].Str())
  }

  /** The tokens after the optional dotted-circle stripping of lines 663-666. */
  function StripIf(ts: seq<string>, strip: bool): seq<string> {
    if strip then StripAll(ts) else ts
  }

  /** `sorted(list(set(tokens)))` of the (optionally stripped) tokens. */
  function SelectedChars(cells: seq<CharList>, strip: bool): (r: seq<string>)
    ensures StrictlySorted(r, StrLess())
    ensures forall z :: z in r <==> z in StripIf(Tokens(cells), strip)
  {
    StrLessIsStrictTotal();
    SortedSet(StripIf(Tokens(cells), strip), StrLess())
  }

  lemma StripAllAppend(a: seq<string>, b: seq<string>)
    ensures StripAll(a + b) == StripAll(a) + StripAll(b)
  {
  }

  /** The characters of `css`, in order. */
  function Concat(css: seq<seq<char>>): seq<char> {
    if css == [] then [] else Concat(css[..|css| - 1]) + css[|css| - 1]
  }

  /** No character of `css` is Python whitespace, so `.split()` keeps it. */
  ghost predicate NoSpaceIn(css: seq<seq<char>>) {
    forall k, i :: 0 <= k < |css| && 0 <= i < |css[k]| ==> !IsSpace(css[k][i])
  }

  /** Cells that display the characters `css[k]` given the marks `markss[k]`. */
  ghost predicate Displays(cells: seq<CharList>, css: seq<seq<char>>, markss: seq<seq<char>>) {
    && |cells| == |css| == |markss|
    && forall k :: 0 <= k < |cells| ==> cells[k] == CharList(DisplayAll(css[k], markss[k]))
  }

  /** One more cell of display form keeps the cells in display form. */
  lemma DisplaysSnoc(cells: seq<CharList>, css: seq<seq<char>>, markss: seq<seq<char>>,
                     cell: CharList, cs: seq<char>, m: seq<char>)
    requires Displays(cells, css, markss) && NoSpaceIn(css)
    requires cell == CharList(DisplayAll(cs, m)) && forall i :: 0 <= i < |cs| ==> !IsSpace(cs[i])
    ensures Displays(cells + [cell], css + [cs], markss + [m]) && NoSpaceIn(css + [cs])
  {
    var n := |cells|;
    forall k | 0 <= k < n + 1 ensures (cells + [cell])[k] == CharList(DisplayAll((css + [cs])[k], (markss + [m])[k])) {
      if k < n {
        assert (cells + [cell])[k] == cells[k] && (css + [cs])[k] == css[k] && (markss + [m])[k] == markss[k];
      }
    }
    forall k, i | 0 <= k < n + 1 && 0 <= i < |(css + [cs])[k]| ensures !IsSpace((css + [cs])[k][i]) {
      if k < n {
        assert (css + [cs])[k] == css[k];
      }
    }
  }

  lemma SingletonsAppend(a: seq<char>, b: seq<char>)
    ensures Singletons(a + b) == Singletons(a) + Singletons(b)
  {
  }

  /** Stripping the tokens of cells of display form gives exactly the
      characters behind them, each as a one-character string, in order. */
  lemma {:induction false} StrippedTokens(cells: seq<CharList>, css: seq<seq<char>>, markss: seq<seq<char>>)
    requires Displays(cells, css, markss) && NoSpaceIn(css)
    ensures StripAll(Tokens(cells)) == Singletons(Concat(css))
  {
    if cells != [] {
      var n := |cells| - 1;
      assert Displays(cells[..n], css[..n], markss[..n]) && NoSpaceIn(css[..n]) by {
        forall k | 0 <= k < n ensures cells[..n][k] == CharList(DisplayAll(css[..n][k], markss[..n][k])) {
          assert cells[..n][k] == cells[k] && css[..n][k] == css[k] && markss[..n][k] == markss[k];
        }
        forall k, i | 0 <= k < n && 0 <= i < |css[..n][k]| ensures !IsSpace(css[..n][k][i]) {
          assert css[..n][k] == css[k];
        }
      }
      StrippedTokens(cells[..n], css[..n], markss[..n]);
      assert forall i :: 0 <= i < |css[n]| ==> !IsSpace(css[n][i]);
      SplitStripDisplay(css[n], markss[n]);
      StripAllAppend(Tokens(cells[..n]), Split(cells[n].Str()));
      SingletonsAppend(Concat(css[..n]), css[n]);
    }
  }

  /** The stripped selection of cells of display form lists each character
      behind them exactly once, as a one-character string. */
  lemma SelectedOfDisplayed(cells: seq<CharList>, css: seq<seq<char>>, markss: seq<seq<char>>)
    requires Displays(cells, css, markss) && NoSpaceIn(css)
    ensures forall j :: 0 <= j < |SelectedChars(cells, true)| ==> |SelectedChars(cells, true)[j]| == 1
    ensures forall c :: c in Concat(css) <==> [c] in SelectedChars(cells, true)
  {
    StrippedTokens(cells, css, markss);
    var r := SelectedChars(cells, true);
    var cs := Concat(css);
    forall j | 0 <= j < |r| ensures |r[j]| == 1 {
      assert r[j] in Singletons(cs);
    }
    forall c ensures c in cs <==> [c] in r {
      if c in cs {
        var i :| 0 <= i < |cs| && cs[i] == c;
        assert Singletons(cs)[i] == [c];
      }
      if [c] in r {
        var i :| 0 <= i < |cs| && Singletons(cs)[i] == [c];
        assert cs[i] == c;
      }
    }
  }

  // ---- copy actions ----

  /** `' '.join(chars)`. */
  function SpaceSeparated(chars: seq<string>): string {
    Join(" ", chars)
  }

  /** `'\n'.join(chars) + '\n'`. */
  function OnePerLine(chars: seq<string>): string {
    Join("\n", chars) + "\n"
  }

  /** `'["' + '", "'.join(chars) + '"]'`. */
  function PythonList(chars: seq<string>): string {
    "[\"" + Join("\", \"", chars) + "\"]"
  }

  /** The space-separated copy splits back into the characters. */
  lemma SpaceSeparatedRoundTrip(chars: seq<string>)
    requires forall i :: 0 <= i < |chars| ==> IsWord(chars[i])
    ensures Split(SpaceSeparated(chars)) == chars
  {
    assert [' '] == " ";
    SplitJoin(' ', chars);
  }

  /** The one-per-line copy splits back into the characters. */
  lemma OnePerLineRoundTrip(chars: seq<string>)
    requires forall i :: 0 <= i < |chars| ==> IsWord(chars[i])
    ensures Split(OnePerLine(chars)) == chars
  {
    assert ['\n'] == "\n";
    SplitTrailingSpace(Join("\n", chars), '\n');
    SplitJoin('\n', chars);
  }

  /** With nothing selected the Python-list copy is `[""]`, a list holding one
      empty string, not the empty list. */
  lemma PythonListOfNothing()
    ensures PythonList([]) == "[\"\"]"
    ensures PythonList(["a"]) == "[\"a\"]"
  {
  }

  // ---- codepoint exports ----

  /** The three renderings of lines 696-709: `U+{:04X}`, `{:0X}` and `str()`. */
  datatype Notation = PlusU | UpperHex | Decimal

  function Render(n: nat, notation: Notation): string {
    match notation
    case PlusU => UnicodeNotation(n)
    case UpperHex => Hex(n)
    case Decimal => Dec(n)
  }

  /** Reads one rendered line back to the number it shows. */
  function ReadBack(line: string, notation: Notation): Option<nat> {
    match notation
    case PlusU => ParseUnicodeNotation(line)
    case UpperHex => ValueOf(line, 16)
    case Decimal => ValueOf(line, 10)
  }

  /** Every rendering is a single word that reads back to its number. */
  lemma RenderRoundTrip(n: nat, notation: Notation)
    ensures IsWord(Render(n, notation))
    ensures ReadBack(Render(n, notation), notation) == Some(n)
  {
    match notation
    case PlusU =>
      UnicodeNotationIsWord(n);
      UnicodeNotationRoundTrip(n);
    case UpperHex =>
      DigitsAreWord(n, 16);
      DigitsRoundTrip(n, 16);
    case Decimal =>
      DigitsAreWord(n, 10);
      DigitsRoundTrip(n, 10);
  }

  /** `ord(t)`: the code point of a one-character string; TypeError otherwise. */
  function Ord(t: string): (r: Result<nat>)
    ensures r.Success? <==> |t| == 1
  {
    if |t| == 1 then Success(t[0] as nat) else Failure(TypeError)
  }

  /** One rendered line per character, or the first `ord` error. */
  function CodepointLines(chars: seq<string>, notation: Notation): Result<seq<string>> {
    if chars == [] then Success([])
    else
      match CodepointLines(chars[..|chars| - 1], notation)
      case Failure(e) => Failure(e)
      case Success(lines) =>
        match Ord(chars[|chars| - 1])
        case Failure(e) => Failure(e)
        case Success(n) => Success(lines + [Render(n, notation)])
  }

  /** The text a codepoint copy action puts on the pasteboard. */
  function CopyCodepoints(chars: seq<string>, notation: Notation): Result<string> {
    match CodepointLines(chars, notation)
    case Failure(e) => Failure(e)
    case Success(lines) => Success(Join("\n", lines))
  }

  /** One more token: the lines exist when they did before and the token is
      one character; a new failure is `ord`'s TypeError. */
  lemma CodepointLinesStep(chars: seq<string>, notation: Notation)
    requires chars != []
    ensures var prev := CodepointLines(chars[..|chars| - 1], notation);
      var r := CodepointLines(chars, notation);
      && (r.Success? <==> prev.Success? && |chars[|chars| - 1]| == 1)
      && (r.Failure? ==> r.error == if prev.Failure? then prev.error else TypeError)
  {
  }

  /** The lines exist exactly when every token is one character; otherwise
      `ord` raises TypeError. */
  lemma {:induction false} CodepointLinesDefined(chars: seq<string>, notation: Notation)
    ensures CodepointLines(chars, notation).Success? <==> forall i :: 0 <= i < |chars| ==> |chars[i]| == 1
    ensures CodepointLines(chars, notation).Failure? ==> CodepointLines(chars, notation).error == TypeError
  {
    if chars != [] {
      var n := |chars| - 1;
      CodepointLinesDefined(chars[..n], notation);
      CodepointLinesStep(chars, notation);
      SinglesSnoc(chars);
    }
  }

  lemma SinglesSnoc(chars: seq<string>)
    requires chars != []
    ensures var n := |chars| - 1;
      (forall i :: 0 <= i < |chars| ==> |chars[i]| == 1)
        <==> (forall i :: 0 <= i < n ==> |chars[..n][i]| == 1) && |chars[n]| == 1
  {
    var n := |chars| - 1;
    assert forall i :: 0 <= i < n ==> chars[..n][i] == chars[i];
  }

  /** When they exist there is one line per token, rendering its code point. */
  lemma {:induction false} CodepointLinesValues(chars: seq<string>, notation: Notation)
    requires CodepointLines(chars, notation).Success?
    ensures |CodepointLines(chars, notation).value| == |chars|
    ensures forall i :: 0 <= i < |chars| ==>
      |chars[i]| == 1 && CodepointLines(chars, notation).value[i] == Render(chars[i][0] as nat, notation)
  {
    if chars != [] {
      var n := |chars| - 1;
      var prev := CodepointLines(chars[..n], notation);
      assert prev.Success? && |chars[n]| == 1;
      CodepointLinesValues(chars[..n], notation);
      var lines := prev.value + [Render(chars[n][0] as nat, notation)];
      assert CodepointLines(chars, notation) == Success(lines);
      forall i | 0 <= i < |chars|
        ensures |chars[i]| == 1 && lines[i] == Render(chars[i][0] as nat, notation)
      {
        if i < n {
          assert chars[..n][i] == chars[i];
          assert lines[i] == prev.value[i];
        }
      }
    }
  }

  /** The codepoint copy of one-character tokens splits into one line per
      token, each reading back to that token's code point. */
  lemma CopyCodepointsRoundTrip(chars: seq<string>, notation: Notation)
    requires forall i :: 0 <= i < |chars| ==> |chars[i]| == 1
    ensures CopyCodepoints(chars, notation).Success?
    ensures var lines := Split(CopyCodepoints(chars, notation).value);
      && |lines| == |chars|
      && forall i :: 0 <= i < |chars| ==> ReadBack(lines[i], notation) == Some(chars[i][0] as nat)
  {
    CodepointLinesDefined(chars, notation);
    CodepointLinesValues(chars, notation);
    var lines := CodepointLines(chars, notation).value;
    forall i | 0 <= i < |lines| ensures IsWord(lines[i]) && ReadBack(lines[i], notation) == Some(chars[i][0] as nat) {
      RenderRoundTrip(chars[i][0] as nat, notation);
    }
    assert ['\n'] == "\n";
    SplitJoin('\n', lines);
  }

  /** One-character strings in `StrLess` order have strictly increasing code points. */
  lemma SinglesIncreasing(chars: seq<string>)
    requires forall j :: 0 <= j < |chars| ==> |chars[j]| == 1
    requires StrictlySorted(chars, StrLess())
    ensures forall i, j :: 0 <= i < j < |chars| ==> chars[i][0] < chars[j][0]
  {
    forall i, j | 0 <= i < j < |chars| ensures chars[i][0] < chars[j][0] {
      assert StrLess()(chars[i], chars[j]);
      assert chars[i] == [chars[i][0]] && chars[j] == [chars[j][0]];
      StrLtSingle(chars[i][0], chars[j][0]);
    }
  }

  /** The copy of `chars` in `notation` succeeds and holds one line per entry,
      each entry a single character whose code point its line reads back to,
      the characters strictly increasing. */
  ghost predicate CodepointsReadBack(chars: seq<string>, notation: Notation) {
    && CopyCodepoints(chars, notation).Success?
    && var lines := Split(CopyCodepoints(chars, notation).value);
    && |lines| == |chars|
    && (forall j :: 0 <= j < |lines| ==>
          |chars[j]| == 1 && ReadBack(lines[j], notation) == Some(chars[j][0] as nat))
    && (forall i, j :: 0 <= i < j < |lines| ==> chars[i][0] < chars[j][0])
  }

  /** The codepoint callbacks of lines 696-709 on cells of display form (each
      displays whitespace-free characters given some marks) never raise; the
      copy holds one line per selected character, each reading back to that
      character's code point, in strictly increasing order. */
  lemma CodepointsOfDisplayed(cells: seq<CharList>, css: seq<seq<char>>, markss: seq<seq<char>>, notation: Notation)
    requires Displays(cells, css, markss) && NoSpaceIn(css)
    ensures CodepointsReadBack(SelectedChars(cells, true), notation)
  {
    var chars := SelectedChars(cells, true);
    SelectedOfDisplayed(cells, css, markss);
    CopyCodepointsRoundTrip(chars, notation);
    SinglesIncreasing(chars);
  }
}

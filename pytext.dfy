/** The parts of Python's `str` that the plugin relies on: `sep.join(parts)`,
    `s.split()` with no argument, and `str.isspace`. */
module PyText {

  /** `c.isspace()`: the characters that `str.split()` with no argument splits on. */
  predicate IsSpace(c: char) {
    || c == ' '
    || ('\t' <= c <= '\r')
    || ('\U{1C}' <= c <= '\U{1F}')
    || c == '\U{85}'
    || c == '\U{A0}'
    || c == '\U{1680}'
    || ('\U{2000}' <= c <= '\U{200A}')
    || c == '\U{2028}'
    || c == '\U{2029}'
    || c == '\U{202F}'
    || c == '\U{205F}'
    || c == '\U{3000}'
  }

  predicate NoSpace(s: string) {
    forall i :: 0 <= i < |s| ==> !IsSpace(s[i])
  }

  /** A word in the sense of `str.split()`: non-empty and free of whitespace. */
  predicate IsWord(s: string) {
    s != [] && NoSpace(s)
  }

  /** `sep.join(parts)`. */
  function Join(sep: string, parts: seq<string>): string
  {
    if parts == [] then ""
    else if |parts| == 1 then parts[0]
    else parts[0] + sep + Join(sep, parts[1..])
  }

  /** `s.lstrip()`: the suffix of `s` that starts at its first non-space character. */
  function LStrip(s: string): (t: string)
    ensures |t| <= |s|
    ensures t == [] || !IsSpace(t[0])
  {
    if s == [] || !IsSpace(s[0]) then s else LStrip(s[1..])
  }

  /** The longest prefix of `s` that holds no whitespace. */
  function Word(s: string): (w: string)
    ensures |w| <= |s|
    ensures NoSpace(w)
    ensures s != [] && !IsSpace(s[0]) ==> w != []
  {
    if s == [] || IsSpace(s[0]) then [] else [s[0]] + Word(s[1..])
  }

  /** `s.split()`: the maximal runs of non-space characters, in order. */
  function Split(s: string): (r: seq<string>)
    ensures forall i :: 0 <= i < |r| ==> IsWord(r[i])
    decreases |s|
  {
    var t := LStrip(s);
    if t == [] then []
    else
      var w := Word(t);
      var rest := t[|w|..];
      assert |rest| < |s|;
      [w] + Split(rest)
  }

  lemma LStripWord(w: string, rest: string)
    requires IsWord(w)
    ensures LStrip(w + rest) == w + rest
  {
  }

  lemma {:induction false} WordOfWord(w: string, rest: string)
    requires NoSpace(w)
    requires rest == [] || IsSpace(rest[0])
    ensures Word(w + rest) == w
  {
    if w != [] {
      assert (w + rest)[1..] == w[1..] + rest;
      WordOfWord(w[1..], rest);
    }
  }

  lemma {:induction false} JoinStartsWithFirst(sep: string, parts: seq<string>)
    requires parts != [] && parts[0] != []
    ensures Join(sep, parts) != [] && Join(sep, parts)[0] == parts[0][0]
  {
  }

  /** Splitting a separator-joined list of words gives the words back: the
      round trip that `getSelectedMissingChars` relies on when it splits the
      space-joined Missing Chars cell. */
  lemma {:induction false} SplitJoin(sep: char, parts: seq<string>)
    requires IsSpace(sep)
    requires forall i :: 0 <= i < |parts| ==> IsWord(parts[i])
    ensures Split(Join([sep], parts)) == parts
  {
    if parts == [] {
    } else if |parts| == 1 {
      var w := parts[0];
      assert Join([sep], parts) == w;
      LStripWord(w, []);
      assert w + [] == w;
      WordOfWord(w, []);
      assert w[|w|..] == [];
    } else {
      var w := parts[0];
      var tail := Join([sep], parts[1..]);
      var s := Join([sep], parts);
      assert s == w + ([sep] + tail);
      LStripWord(w, [sep] + tail);
      WordOfWord(w, [sep] + tail);
      assert s[|w|..] == [sep] + tail;
      JoinStartsWithFirst([sep], parts[1..]);
      assert LStrip([sep] + tail) == LStrip(tail);
      assert LStrip(tail) == tail;
      SplitJoin(sep, parts[1..]);
      assert Split([sep] + tail) == Split(tail);
    }
  }

  lemma {:induction false} LStripAppend(s: string, x: string)
    requires LStrip(s) != []
    ensures LStrip(s + x) == LStrip(s) + x
  {
    assert s != [];
    assert (s + x)[0] == s[0];
    if IsSpace(s[0]) {
      assert LStrip(s) == LStrip(s[1..]);
      assert (s + x)[1..] == s[1..] + x;
      LStripAppend(s[1..], x);
      assert LStrip(s + x) == LStrip(s[1..] + x);
    } else {
      assert LStrip(s) == s;
      assert LStrip(s + x) == s + x;
    }
  }

  lemma {:induction false} LStripAllSpace(s: string, c: char)
    requires LStrip(s) == [] && IsSpace(c)
    ensures LStrip(s + [c]) == []
  {
    if s != [] {
      assert (s + [c])[1..] == s[1..] + [c];
      LStripAllSpace(s[1..], c);
    }
  }

  lemma {:induction false} WordAppendSpace(t: string, c: char)
    requires IsSpace(c)
    ensures Word(t + [c]) == Word(t)
  {
    if t != [] && !IsSpace(t[0]) {
      assert (t + [c])[1..] == t[1..] + [c];
      WordAppendSpace(t[1..], c);
    }
  }

  /** Trailing whitespace does not change what `split()` returns. */
  lemma {:induction false} SplitTrailingSpace(s: string, c: char)
    requires IsSpace(c)
    ensures Split(s + [c]) == Split(s)
    decreases |s|
  {
    var t := LStrip(s);
    if t == [] {
      LStripAllSpace(s, c);
    } else {
      LStripAppend(s, [c]);
      WordAppendSpace(t, c);
      var w := Word(t);
      assert (t + [c])[|w|..] == t[|w|..] + [c];
      SplitTrailingSpace(t[|w|..], c);
    }
  }
}

/** The language database the plugin reads (hyperglot), as already-parsed
    immutable records. Optional fields stand for keys that may be absent or
    hold None. */
module Hyperglot {
  import opened Wrappers

  /** One orthography. `baseChars` and `baseMarks` are what hyperglot's
      `Orthography(ortho).base_chars` and `.base_marks` return. */
  datatype Orthography = Orthography(
    script: string,
    status: Option<string>,
    baseChars: seq<char>,
    baseMarks: seq<char>)

  /** One language entry. `orthographies` is None when the entry has no
      'orthographies' key; `speakers` is None when the count is absent or None. */
  datatype Language = Language(
    code: string,
    name: string,
    preferredName: Option<string>,
    speakers: Option<int>,
    status: Option<string>,
    orthographies: Option<seq<Orthography>>)
}

/** What the font editor offers the plugin: glyph info for a character. */
module GlyphsHost {

  /** The part of the editor's glyph info the plugin uses. */
  datatype GlyphInfo = GlyphInfo(name: string)

  /** The editor's Unicode resolution gives different characters different glyph names. */
  ghost predicate DistinctNames(lookup: char -> GlyphInfo) {
    forall a, b :: a != b ==> lookup(a).name != lookup(b).name
  }
}

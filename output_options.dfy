/** The output-shaping enums of the command line and the `--charset` parser. */
module OutputOptions {
  import W = Wrappers

  /** Glyph set used for tree indentation. */
  datatype Charset = Utf8 | Ascii

  /** Flat list, indented tree, or depth-prefixed list. */
  datatype Prefix = None | Indent | Depth

  /** The spelling `--charset` accepts for each glyph set. */
  function CharsetName(c: Charset): string
  {
    match c
    case Utf8 => "utf8"
    case Ascii => "ascii"
  }

  /**
    `Charset::from_str`: exactly the two spellings are accepted, everything else
    (case variants, the empty string, surrounding blanks) is an error.
  */
  function CharsetFromStr(s: string): (r: W.Result<Charset, string>)
    ensures r.Ok? <==> s == "utf8" || s == "ascii"
    ensures r.Ok? ==> CharsetName(r.value) == s
    ensures r.Err? ==> r.error == "invalid charset"
  {
    if s == "utf8" then W.Ok(Utf8)
    else if s == "ascii" then W.Ok(Ascii)
    else W.Err("invalid charset")
  }

  /** Parsing the spelling of a glyph set gives that glyph set back. */
  lemma CharsetRoundTrip(c: Charset)
    ensures CharsetFromStr(CharsetName(c)) == W.Ok(c)
  {
  }
}

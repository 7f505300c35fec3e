/** The configured stylesheet files, as far as the converter reads and appends to them. */
module Workspace {
  import opened Wrappers

  /** One file: its text when reading it succeeds, and whether appending to it succeeds. */
  datatype CssFile = CssFile(content: Option<string>, appendable: bool)

  /**
   * The files `cssFiles = [...sourceCssFiles, generatedCssFile]`: the
   * hand-written sources in configured order, then the generated sink.
   * `stray` is the file at `<root>undefined`, which `cssFiles[2]` names when
   * fewer than three files are configured.
   */
  datatype Disk = Disk(sources: seq<CssFile>, sink: CssFile, stray: CssFile) {
    function Files(): seq<CssFile> {
      sources + [sink]
    }
  }

  /**
   * `fs.appendFileSync`: fails when the file cannot be written; otherwise the
   * text is added at the end, and a file that could not be read (because it
   * did not exist) now holds just that text.
   */
  function Append(f: CssFile, text: string): (r: Option<CssFile>)
    ensures r.Some? <==> f.appendable
    ensures r.Some? ==> r.value.appendable && r.value.content == Some(f.content.GetOr("") + text)
  {
    if f.appendable then Some(CssFile(Some(f.content.GetOr("") + text), true)) else None
  }

  /** The append of a new rule for the main style: always to the generated sink. */
  function AppendToSink(d: Disk, text: string): (r: Option<Disk>)
    ensures r.Some? <==> d.sink.appendable
    ensures r.Some? ==> r.value.sources == d.sources && r.value.stray == d.stray
    ensures r.Some? ==> r.value.sink.content == Some(d.sink.content.GetOr("") + text)
  {
    match Append(d.sink, text)
    case None => None
    case Some(f) => Some(d.(sink := f))
  }

  /** The file `cssFiles[2]` names: the third source, the sink when there are two sources, the stray file when fewer. */
  function ThirdFile(d: Disk): CssFile {
    if |d.sources| > 2 then d.sources[2]
    else if |d.sources| == 2 then d.sink
    else d.stray
  }

  /**
   * The append of a new rule for a conditional block: to `cssFiles[2]`, a
   * fixed index. With exactly two sources that is the sink; with more it is the
   * third source; with fewer it is the stray file outside the list.
   */
  function AppendToThirdFile(d: Disk, text: string): (r: Option<Disk>)
    ensures r.Some? <==> ThirdFile(d).appendable
    ensures |d.sources| == 2 ==> r == AppendToSink(d, text)
    ensures |d.sources| > 2 && r.Some? ==>
      && r.value.sink == d.sink && r.value.stray == d.stray
      && |r.value.sources| == |d.sources|
      && (forall i | 0 <= i < |d.sources| && i != 2 :: r.value.sources[i] == d.sources[i])
      && r.value.sources[2].content == Some(d.sources[2].content.GetOr("") + text)
    ensures |d.sources| < 2 && r.Some? ==> r.value.Files() == d.Files() && r.value.stray.content == Some(d.stray.content.GetOr("") + text)
  {
    if |d.sources| > 2 then
      match Append(d.sources[2], text)
      case None => None
      case Some(f) => Some(d.(sources := d.sources[2 := f]))
    else if |d.sources| == 2 then AppendToSink(d, text)
    else
      match Append(d.stray, text)
      case None => None
      case Some(f) => Some(d.(stray := f))
  }
}

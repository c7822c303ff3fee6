/** The archive kinds of helix_hl_diff/archive.py and the choice of extractor for each. */
module Archive {

  datatype ArchiveType = Zip | Tarball

  /** The file extension of an archive kind. */
  function Ext(t: ArchiveType): (e: string)
    ensures |e| >= 4 && e[0] == '.'
  {
    match t
    case Zip => ".zip"
    case Tarball => ".tar.gz"
  }

  /** Different archive kinds never share an extension. */
  lemma ExtInjective(s: ArchiveType, t: ArchiveType)
    ensures Ext(s) == Ext(t) <==> s == t
  {
    assert Ext(Zip)[1] != Ext(Tarball)[1];
  }

  /** The extractors `extract` can hand the archive to; their bodies are library I/O. */
  datatype Extractor = ZipExtractor | TarballExtractor

  /** The extractor calls `extract` makes for an archive kind, in order. */
  function Extract(t: ArchiveType): (calls: seq<Extractor>)
    ensures |calls| == 1
    ensures calls[0] == ZipExtractor <==> t == Zip
  {
    match t
    case Zip => [ZipExtractor]
    case Tarball => [TarballExtractor]
  }
}

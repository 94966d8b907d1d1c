/** The world the client runs in: a filesystem holding bytes at paths,
    and the three codecs it borrows from libraries (gzip decompression,
    UTF-8 text decoding and MD5), which are left uninterpreted. */
module Env {
  import opened Wrappers
  import opened Bytes
  import opened Types

  /** The files that exist and their contents. */
  type Disk = map<Path, seq<byte>>

  /** Gzip decompression (partial: `None` when the data is not a valid
      gzip stream), UTF-8 decoding of whole text, and the MD5 digest. */
  datatype Codecs = Codecs(
    gunzip: seq<byte> -> Option<seq<byte>>,
    utf8: seq<byte> -> Option<string>,
    md5: seq<byte> -> seq<byte>)

  /** `gz::read_binary_gz_from_file`: read a file and decompress it. */
  function ReadBinaryGz(codecs: Codecs, disk: Disk, path: Path): (r: Result<seq<byte>, Failure>)
    ensures r.Ok? <==> path in disk && codecs.gunzip(disk[path]).Some?
    ensures r.Ok? ==> r.value == codecs.gunzip(disk[path]).value
    ensures r.Err? ==> r.error == GzReadError
  {
    if path !in disk then Err(GzReadError)
    else match codecs.gunzip(disk[path])
      case None => Err(GzReadError)
      case Some(data) => Ok(data)
  }

  /** `gz::read_gz_from_file`: read, decompress, and decode as UTF-8. */
  function ReadGzText(codecs: Codecs, disk: Disk, path: Path): (r: Result<string, Failure>)
    ensures r.Ok? <==> ReadBinaryGz(codecs, disk, path).Ok? && codecs.utf8(ReadBinaryGz(codecs, disk, path).value).Some?
    ensures r.Err? ==> r.error == GzReadError
    ensures r.Ok? ==> r.value == codecs.utf8(ReadBinaryGz(codecs, disk, path).value).value
  {
    var data :- ReadBinaryGz(codecs, disk, path);
    match codecs.utf8(data)
    case None => Err(GzReadError)
    case Some(text) => Ok(text)
  }
}

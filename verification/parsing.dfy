/** The three on-disk formats of the Rapid protocol, after gzip
    decompression: the binary descriptor file (a list of blob records),
    a repository's version list, and the repository registry.
    Source: src/rapid/parsing.rs. */
module Parsing {
  import opened Wrappers
  import opened Bytes
  import opened Types
  import opened Text
  import Utf8
  import Hex
  import Env

  // ---------------------------------------------------------------------
  // Descriptor files: [len:1][name:len][md5:16][crc32:4][size:4 LE] ...

  const MD5_LEN: nat := 16
  const CRC32_LEN: nat := 4
  const SIZE_LEN: nat := 4

  /** A record that the descriptor format can carry. */
  predicate WellFormed(p: SdpPackage) {
    && |p.name| < 256
    && Utf8.ValidUtf8(p.name)
    && |p.md5Bin| == MD5_LEN
    && |p.crc32| == CRC32_LEN
    && p.size < U32_LIMIT
  }

  predicate AllWellFormed(ps: seq<SdpPackage>) {
    forall k :: 0 <= k < |ps| ==> WellFormed(ps[k])
  }

  /** The bytes of one record. The format itself has no writer in the
      client; this is the layout the decoder reads. */
  function EncodeRecord(p: SdpPackage): seq<byte>
    requires WellFormed(p)
  {
    [|p.name| as byte] + p.name + p.md5Bin + p.crc32 + LittleEndian(p.size)
  }

  /** The bytes of a whole descriptor file, records back to back. */
  function Encode(ps: seq<SdpPackage>): seq<byte>
    requires AllWellFormed(ps)
  {
    if |ps| == 0 then [] else EncodeRecord(ps[0]) + Encode(ps[1..])
  }

  /** One iteration of the loop in `load_sdp_packages`: the record at the
      start of `data` and the number of bytes it occupies. Each slice read
      past the end of the buffer, and a name that is not UTF-8, panics. */
  function DecodeRecord(data: seq<byte>): (r: Result<(SdpPackage, nat), Failure>)
    requires |data| > 0
    ensures r.Ok? ==> WellFormed(r.value.0)
    ensures r.Ok? ==> r.value.1 == 1 + data[0] as nat + MD5_LEN + CRC32_LEN + SIZE_LEN
    ensures r.Ok? ==> r.value.1 <= |data| && data[..r.value.1] == EncodeRecord(r.value.0)
    ensures r.Err? ==> r.error.Panic?
  {
    var len := data[0] as nat;
    var nameEnd := 1 + len;
    var md5End := nameEnd + MD5_LEN;
    var crcEnd := md5End + CRC32_LEN;
    var sizeEnd := crcEnd + SIZE_LEN;
    if nameEnd > |data| then Err(Panic("name slice out of range"))
    else if !Utf8.ValidUtf8(data[1..nameEnd]) then Err(Panic("name is not UTF-8"))
    else if md5End > |data| then Err(Panic("md5 slice out of range"))
    else if crcEnd > |data| then Err(Panic("crc32 slice out of range"))
    else if sizeEnd > |data| then Err(Panic("size slice out of range"))
    else
      var p := SdpPackage(data[1..nameEnd], data[nameEnd..md5End], data[md5End..crcEnd],
                          FromLittleEndian(data[crcEnd..sizeEnd]));
      RecordOfSlices(data, p);
      Ok((p, sizeEnd))
  }

  /** The record cut out of the first bytes of `data` by its fields'
      sizes is well formed and encodes back to those bytes. */
  lemma RecordOfSlices(data: seq<byte>, p: SdpPackage)
    requires |data| > 0
    requires 1 + data[0] as nat + MD5_LEN + CRC32_LEN + SIZE_LEN <= |data|
    requires Utf8.ValidUtf8(data[1..1 + data[0] as nat])
    requires var nameEnd := 1 + data[0] as nat;
      var md5End := nameEnd + MD5_LEN;
      var crcEnd := md5End + CRC32_LEN;
      p == SdpPackage(data[1..nameEnd], data[nameEnd..md5End], data[md5End..crcEnd],
                      FromLittleEndian(data[crcEnd..crcEnd + SIZE_LEN]))
    ensures WellFormed(p)
    ensures data[..1 + data[0] as nat + MD5_LEN + CRC32_LEN + SIZE_LEN] == EncodeRecord(p)
  {
    var nameEnd := 1 + data[0] as nat;
    var md5End := nameEnd + MD5_LEN;
    var crcEnd := md5End + CRC32_LEN;
    var sizeEnd := crcEnd + SIZE_LEN;
    FromLittleEndianRoundTrip(data[crcEnd..sizeEnd]);
    assert data[..sizeEnd] == [data[0]] + data[1..nameEnd] + data[nameEnd..md5End]
                              + data[md5End..crcEnd] + data[crcEnd..sizeEnd];
  }

  /** `load_sdp_packages`: records are read until the buffer is exhausted.
      Whatever it accepts is exactly the encoding of the records it
      returns, so no byte is skipped or read twice. */
  function LoadSdpPackages(data: seq<byte>): (r: Result<seq<SdpPackage>, Failure>)
    ensures |data| == 0 ==> r == Ok([])
    ensures r.Ok? ==> AllWellFormed(r.value) && Encode(r.value) == data
    ensures r.Err? ==> r.error.Panic?
    decreases |data|
  {
    if |data| == 0 then Ok([])
    else
      var (p, used) :- DecodeRecord(data);
      var rest :- LoadSdpPackages(data[used..]);
      assert data == data[..used] + data[used..];
      Ok([p] + rest)
  }

  /** `load_sdp_packages_from_file`: a read error when the file cannot be
      read or decompressed, otherwise the records of the decompressed
      bytes or a panic. */
  function LoadSdpPackagesFromFile(codecs: Env.Codecs, disk: Env.Disk, path: Path): (r: Result<seq<SdpPackage>, Failure>)
    ensures r.Err? && r.error == GzReadError <==> Env.ReadBinaryGz(codecs, disk, path).Err?
    ensures r.Err? && r.error != GzReadError ==> r.error.Panic?
    ensures r.Ok? ==> AllWellFormed(r.value) && Encode(r.value) == Env.ReadBinaryGz(codecs, disk, path).value
  {
    var data :- Env.ReadBinaryGz(codecs, disk, path);
    LoadSdpPackages(data)
  }

  lemma DecodeRecordOfEncoding(p: SdpPackage, rest: seq<byte>)
    requires WellFormed(p)
    ensures DecodeRecord(EncodeRecord(p) + rest) == Ok((p, |EncodeRecord(p)|))
  {
    var data := EncodeRecord(p) + rest;
    var len := |p.name|;
    assert data[0] as nat == len;
    assert data[1..1 + len] == p.name;
    assert data[1 + len..17 + len] == p.md5Bin;
    assert data[17 + len..21 + len] == p.crc32;
    assert data[21 + len..25 + len] == LittleEndian(p.size);
    LittleEndianRoundTrip(p.size);
  }

  /** Decoding the encoding of well-formed records gives those records
      back, in order. */
  lemma {:induction false} DecodeEncode(ps: seq<SdpPackage>)
    requires AllWellFormed(ps)
    ensures LoadSdpPackages(Encode(ps)) == Ok(ps)
  {
    if |ps| > 0 {
      var head := EncodeRecord(ps[0]);
      var tail := Encode(ps[1..]);
      var data := Encode(ps);
      assert data == head + tail;
      DecodeRecordOfEncoding(ps[0], tail);
      assert data[|head|..] == tail;
      DecodeEncode(ps[1..]);
      assert LoadSdpPackages(data) == Ok([ps[0]] + ps[1..]);
      assert [ps[0]] + ps[1..] == ps;
    }
  }

  /** A buffer decodes without panicking exactly when it is the encoding
      of some list of well-formed records. */
  lemma DecodeSucceedsIffEncoding(data: seq<byte>)
    ensures LoadSdpPackages(data).Ok? <==>
      exists ps :: AllWellFormed(ps) && Encode(ps) == data
  {
    if exists ps :: AllWellFormed(ps) && Encode(ps) == data {
      var ps :| AllWellFormed(ps) && Encode(ps) == data;
      DecodeEncode(ps);
    }
  }

  /** Each record's `md5` text is the 32-digit lowercase hex form of its
      16 digest bytes, two digits per byte, high nibble first. */
  lemma Md5HexForm(p: SdpPackage, i: nat)
    requires WellFormed(p) && i < MD5_LEN
    ensures |p.Md5()| == 32
    ensures Hex.IsHexDigit(p.Md5()[2 * i]) && Hex.IsHexDigit(p.Md5()[2 * i + 1])
    ensures p.Md5()[2 * i] == Hex.Digit(p.md5Bin[i] as nat / 16)
    ensures p.Md5()[2 * i + 1] == Hex.Digit(p.md5Bin[i] as nat % 16)
  {
    Hex.EncodeAt(p.md5Bin, i);
  }

  // ---------------------------------------------------------------------
  // Version lists: fullname,md5,alias,something per line

  const COMMA: string := ","

  /** The fields of a version-list line, `None` unless there are exactly four. */
  function ParseVersionLine(line: string): Option<Sdp> {
    var fields := Split(line, COMMA);
    if |fields| != 4 then None
    else Some(Sdp(fields[0], fields[1], fields[2], fields[3]))
  }

  function ParseVersionLines(lines: seq<string>): seq<Sdp> {
    if |lines| == 0 then []
    else match ParseVersionLine(lines[0])
      case None => ParseVersionLines(lines[1..])
      case Some(sdp) => [sdp] + ParseVersionLines(lines[1..])
  }

  /** `read_rapid_from_str`: one descriptor per line with four fields;
      other lines are skipped (the source prints "MALFORMED FILE"). */
  function ReadRapidFromStr(text: string): (r: seq<Sdp>)
    ensures |r| <= |Lines(text)|
    ensures forall k :: 0 <= k < |r| ==> VersionFieldsClean(r[k]) && VersionLine(r[k]) in Lines(text)
  {
    ParsedVersionsAreLines(Lines(text));
    ParseVersionLines(Lines(text))
  }

  /** `read_rapid_from_file`: fails only when the text cannot be read,
      since a malformed line is skipped rather than reported. */
  function ReadRapidFromFile(codecs: Env.Codecs, disk: Env.Disk, path: Path): (r: Result<seq<Sdp>, Failure>)
    ensures r.Err? <==> Env.ReadGzText(codecs, disk, path).Err?
    ensures r.Err? ==> r.error == GzReadError
    ensures r.Ok? ==> r.value == ReadRapidFromStr(Env.ReadGzText(codecs, disk, path).value)
  {
    var text :- Env.ReadGzText(codecs, disk, path);
    Ok(ReadRapidFromStr(text))
  }

  predicate NoComma(s: string) {
    ',' !in s
  }

  /** The line that a version-list entry occupies. */
  function VersionLine(sdp: Sdp): string {
    sdp.fullname + COMMA + sdp.md5 + COMMA + sdp.alias + COMMA + sdp.something
  }

  predicate VersionFieldsClean(sdp: Sdp) {
    && NoComma(sdp.fullname) && NoComma(sdp.md5) && NoComma(sdp.alias) && NoComma(sdp.something)
  }

  lemma FieldsOfSplitAreClean(s: string)
    ensures forall k :: 0 <= k < |Split(s, COMMA)| ==> NoComma(Split(s, COMMA)[k])
    decreases |s|
  {
    match Find(s, COMMA)
    case None =>
      NoCommaWhenNotFound(s);
    case Some(i) =>
      NoCommaBefore(s, i);
      FieldsOfSplitAreClean(s[i + 1..]);
  }

  lemma NoCommaWhenNotFound(s: string)
    requires Find(s, COMMA).None?
    ensures NoComma(s)
  {
    forall j | 0 <= j < |s|
      ensures s[j] != ','
    {
      assert s[j..j + 1] == [s[j]];
      assert !OccursAt(s, COMMA, j);
    }
  }

  lemma NoCommaBefore(s: string, i: nat)
    requires Find(s, COMMA) == Some(i)
    ensures NoComma(s[..i])
  {
    forall j | 0 <= j < i
      ensures s[j] != ','
    {
      assert s[j..j + 1] == [s[j]];
      assert !OccursAt(s, COMMA, j);
    }
  }

  /** A line is accepted exactly when it is four comma-free fields joined
      by commas, and then field 0 is `fullname`, 1 `md5`, 2 `alias` and
      3 `something`. */
  lemma VersionLineCharacterization(line: string, sdp: Sdp)
    ensures ParseVersionLine(line) == Some(sdp) <==> VersionFieldsClean(sdp) && line == VersionLine(sdp)
  {
    var parts := [sdp.fullname, sdp.md5, sdp.alias, sdp.something];
    JoinFour(sdp);
    if ParseVersionLine(line) == Some(sdp) {
      var fields := Split(line, COMMA);
      FieldsOfSplitAreClean(line);
      JoinSplit(line, COMMA);
      assert fields == parts;
    }
    if VersionFieldsClean(sdp) && line == VersionLine(sdp) {
      SplitJoin(parts, ',');
    }
  }

  lemma JoinFour(sdp: Sdp)
    ensures Join([sdp.fullname, sdp.md5, sdp.alias, sdp.something], COMMA) == VersionLine(sdp)
  {
    var parts := [sdp.fullname, sdp.md5, sdp.alias, sdp.something];
    assert parts[1..] == [sdp.md5, sdp.alias, sdp.something];
    assert parts[1..][1..] == [sdp.alias, sdp.something];
    assert parts[1..][1..][1..] == [sdp.something];
    assert Join([sdp.alias, sdp.something], COMMA) == sdp.alias + COMMA + sdp.something;
    assert Join([sdp.md5, sdp.alias, sdp.something], COMMA) == sdp.md5 + COMMA + (sdp.alias + COMMA + sdp.something);
    assert Join(parts, COMMA) == sdp.fullname + COMMA + (sdp.md5 + COMMA + (sdp.alias + COMMA + sdp.something));
  }

  /** The list parser treats lines independently and keeps their order. */
  lemma {:induction false} ParseVersionLinesAppend(a: seq<string>, b: seq<string>)
    ensures ParseVersionLines(a + b) == ParseVersionLines(a) + ParseVersionLines(b)
  {
    if |a| == 0 {
      assert a + b == b;
    } else {
      assert (a + b)[0] == a[0];
      assert (a + b)[1..] == a[1..] + b;
      ParseVersionLinesAppend(a[1..], b);
    }
  }

  /** A line without exactly four fields contributes nothing. */
  lemma MalformedLineSkipped(line: string)
    requires |Split(line, COMMA)| != 4
    ensures ParseVersionLines([line]) == []
  {
  }

  /** Every descriptor the list parser returns is one of the lines, read
      as four comma-free fields; lines never produce more than one. */
  lemma {:induction false} ParsedVersionsAreLines(lines: seq<string>)
    ensures var r := ParseVersionLines(lines);
      && |r| <= |lines|
      && forall k :: 0 <= k < |r| ==> VersionFieldsClean(r[k]) && VersionLine(r[k]) in lines
    decreases |lines|
  {
    if |lines| > 0 {
      ParsedVersionsAreLines(lines[1..]);
      var rest := ParseVersionLines(lines[1..]);
      match ParseVersionLine(lines[0])
      case None =>
        assert ParseVersionLines(lines) == rest;
      case Some(sdp) =>
        VersionLineCharacterization(lines[0], sdp);
        var r := [sdp] + rest;
        assert ParseVersionLines(lines) == r;
        forall k | 0 <= k < |r| ensures VersionFieldsClean(r[k]) && VersionLine(r[k]) in lines {
          if k > 0 {
            assert r[k] == rest[k - 1];
          }
        }
    }
  }

  /** Printing well-formed descriptors one per line and reading them back
      gives the same descriptors in the same order. */
  lemma {:induction false} VersionListRoundTrip(sdps: seq<Sdp>)
    requires forall k :: 0 <= k < |sdps| ==> VersionFieldsClean(sdps[k]) && IsLine(VersionLine(sdps[k]))
    ensures ReadRapidFromStr(Unlines(VersionLines(sdps))) == sdps
  {
    LinesUnlines(VersionLines(sdps));
    VersionLinesParse(sdps);
  }

  function VersionLines(sdps: seq<Sdp>): (ls: seq<string>)
    ensures |ls| == |sdps|
    ensures forall k :: 0 <= k < |sdps| ==> ls[k] == VersionLine(sdps[k])
  {
    if |sdps| == 0 then [] else [VersionLine(sdps[0])] + VersionLines(sdps[1..])
  }

  lemma {:induction false} VersionLinesParse(sdps: seq<Sdp>)
    requires forall k :: 0 <= k < |sdps| ==> VersionFieldsClean(sdps[k])
    ensures ParseVersionLines(VersionLines(sdps)) == sdps
  {
    if |sdps| > 0 {
      VersionLineCharacterization(VersionLine(sdps[0]), sdps[0]);
      assert VersionLines(sdps)[1..] == VersionLines(sdps[1..]);
      VersionLinesParse(sdps[1..]);
    }
  }

  // ---------------------------------------------------------------------
  // The registry: name,url per line

  /** One registry line: field 0 is the name and field 1 the URL; further
      fields are ignored, and a line without a comma panics. */
  function ParseRepoLine(line: string): Result<Repo, Failure> {
    var fields := Split(line, COMMA);
    if |fields| < 2 then Err(Panic("registry line has no second field"))
    else Ok(Repo(fields[0], fields[1]))
  }

  function ParseRepoLines(lines: seq<string>): (r: Result<seq<Repo>, Failure>)
    ensures r.Ok? ==> |r.value| == |lines|
    ensures r.Ok? <==> forall k :: 0 <= k < |lines| ==> ParseRepoLine(lines[k]).Ok?
    ensures r.Ok? ==> forall k :: 0 <= k < |lines| ==> r.value[k] == ParseRepoLine(lines[k]).value
    ensures r.Err? ==> r.error.Panic?
  {
    if |lines| == 0 then Ok([])
    else
      var repo :- ParseRepoLine(lines[0]);
      var rest :- ParseRepoLines(lines[1..]);
      Ok([repo] + rest)
  }

  /** `parse_repos_from_str`. */
  function ParseReposFromStr(text: string): (r: Result<seq<Repo>, Failure>)
    ensures r.Ok? <==> forall k :: 0 <= k < |Lines(text)| ==> ',' in Lines(text)[k]
    ensures r.Ok? ==> |r.value| == |Lines(text)|
    ensures r.Ok? ==> forall k :: 0 <= k < |r.value| ==> NoComma(r.value[k].name) && NoComma(r.value[k].url)
    ensures r.Err? ==> r.error.Panic?
  {
    var lines := Lines(text);
    RepoLinesParseIffCommas(lines);
    var r := ParseRepoLines(lines);
    assert r.Ok? <==> forall k :: 0 <= k < |lines| ==> ',' in lines[k];
    r
  }

  /** The registry parser succeeds exactly when every line holds a comma,
      and then every name and URL is comma-free. */
  lemma RepoLinesParseIffCommas(lines: seq<string>)
    ensures var r := ParseRepoLines(lines);
      && (r.Ok? <==> forall k :: 0 <= k < |lines| ==> ',' in lines[k])
      && (r.Ok? ==> forall k :: 0 <= k < |r.value| ==> NoComma(r.value[k].name) && NoComma(r.value[k].url))
  {
    forall k | 0 <= k < |lines| {
      RepoLineCharacterization(lines[k]);
    }
  }

  /** `parse_repos_from_file`: a read error exactly when the text cannot
      be read; any other failure is the parser's panic. */
  function ParseReposFromFile(codecs: Env.Codecs, disk: Env.Disk, path: Path): (r: Result<seq<Repo>, Failure>)
    ensures r.Err? && !r.error.Panic? <==> Env.ReadGzText(codecs, disk, path).Err?
    ensures r.Err? && !r.error.Panic? ==> r.error == GzReadError
    ensures Env.ReadGzText(codecs, disk, path).Ok? ==> r == ParseReposFromStr(Env.ReadGzText(codecs, disk, path).value)
  {
    var text :- Env.ReadGzText(codecs, disk, path);
    ParseReposFromStr(text)
  }

  /** A registry line parses exactly when it holds a comma; the name is
      the text before the first comma and the URL the text up to the next
      comma or the end of the line. */
  lemma RepoLineCharacterization(line: string)
    ensures ParseRepoLine(line).Ok? <==> ',' in line
    ensures ParseRepoLine(line).Ok? ==>
      var repo := ParseRepoLine(line).value;
      && NoComma(repo.name) && NoComma(repo.url)
      && (line == repo.name + COMMA + repo.url
          || exists rest :: line == repo.name + COMMA + repo.url + COMMA + rest)
  {
    var fields := Split(line, COMMA);
    FieldsOfSplitAreClean(line);
    if |fields| >= 2 {
      RepoLineShape(line);
    } else {
      assert Find(line, COMMA).None?;
      NoCommaWhenNotFound(line);
    }
  }

  lemma RepoLineShape(line: string)
    requires |Split(line, COMMA)| >= 2
    ensures ',' in line
    ensures var fields := Split(line, COMMA);
      || (|fields| == 2 && line == fields[0] + COMMA + fields[1])
      || (|fields| > 2 && line == fields[0] + COMMA + fields[1] + COMMA + Join(fields[2..], COMMA))
  {
    var fields := Split(line, COMMA);
    JoinSplit(line, COMMA);
    JoinShape(fields);
    CommaAfterFirst(fields[0], Join(fields[1..], COMMA));
  }

  /** Joining at least two fields puts the first two in front. */
  lemma JoinShape(fields: seq<string>)
    requires |fields| >= 2
    ensures Join(fields, COMMA) == fields[0] + COMMA + Join(fields[1..], COMMA)
    ensures || (|fields| == 2 && Join(fields, COMMA) == fields[0] + COMMA + fields[1])
            || (|fields| > 2 && Join(fields, COMMA) == fields[0] + COMMA + fields[1] + COMMA + Join(fields[2..], COMMA))
  {
    var tail := Join(fields[1..], COMMA);
    assert Join(fields, COMMA) == fields[0] + COMMA + tail;
    if |fields| > 2 {
      assert fields[1..][1..] == fields[2..];
      var rest := Join(fields[2..], COMMA);
      assert tail == fields[1] + COMMA + rest;
      ConcatAssoc(fields[0], fields[1], rest);
    } else {
      assert tail == fields[1];
    }
  }

  lemma ConcatAssoc(a: string, b: string, c: string)
    ensures a + COMMA + (b + COMMA + c) == a + COMMA + b + COMMA + c
  {
    var x := a + COMMA;
    assert x + (b + COMMA + c) == x + (b + COMMA) + c;
    assert x + (b + COMMA) == x + b + COMMA;
  }

  lemma CommaAfterFirst(first: string, tail: string)
    ensures ',' in first + COMMA + tail
  {
    assert (first + COMMA + tail)[|first|] == ',';
  }

  /** Writing repositories one per line and parsing them back gives the
      same repositories. */
  lemma {:induction false} RegistryRoundTrip(repos: seq<Repo>)
    requires forall k :: 0 <= k < |repos| ==>
      NoComma(repos[k].name) && NoComma(repos[k].url) && IsLine(RegistryLine(repos[k]))
    ensures ParseReposFromStr(Unlines(RegistryLines(repos))) == Ok(repos)
  {
    var ls := RegistryLines(repos);
    LinesUnlines(ls);
    forall k | 0 <= k < |repos|
      ensures ParseRepoLine(ls[k]) == Ok(repos[k])
    {
      SplitJoin([repos[k].name, repos[k].url], ',');
    }
    assert ParseRepoLines(ls).value == repos;
  }

  function RegistryLine(repo: Repo): string {
    repo.name + COMMA + repo.url
  }

  function RegistryLines(repos: seq<Repo>): (ls: seq<string>)
    ensures |ls| == |repos|
    ensures forall k :: 0 <= k < |repos| ==> ls[k] == RegistryLine(repos[k])
  {
    if |repos| == 0 then [] else [RegistryLine(repos[0])] + RegistryLines(repos[1..])
  }
}

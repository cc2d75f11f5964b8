/**
  The manifest component (pkg/manifest/manifest.go): the loops that extract
  layers into the disk and log a catalog, proved against the folds of
  Extraction and the listing of Listing.
*/
module Manifests {
  import opened Wrappers
  import opened Text
  import opened FileTree
  import opened Extraction
  import opened EntryLaws
  import opened Disks
  import Json
  import Catalog
  import opened Listing
  import opened Stripping
  import opened Projection
  import opened ListingLaws
  import Log

  /** ListCatalogs on the contents of the catalog file: whether it could be read, and the lines logged for it. */
  function DataTrace(data: Option<string>): (bool, seq<Log.Line>) {
    if data.None? then (false, [])
    else
      match ReadConfigs(data.value)
      case None => (false, [])
      case Some(configs) => (true, CatalogLines(configs))
  }

  function CatalogTrace(fs: Files, filePath: string, op: string): (bool, seq<Log.Line>) {
    DataTrace(ReadFile(fs, Resolve(filePath + "/" + op + "/" + "catalog.json")))
  }

  /**
    End to end, for a catalog file that is a stream of any objects: lines are
    logged exactly if every separator is one newline and no object is mistyped
    once the spaces in its keys are deleted.  The lines show the decoded
    literals of the objects without raw spaces.  If all literals projected are
    plain, the lines are those of the objects with mended keys in order, every
    string without its spaces; and where no key becomes a projected one, these
    are the original objects.
  */
  lemma TraceOfStream(fs: Files, filePath: string, op: string, lead: string, chunks: seq<Catalog.Chunk>)
    requires Json.AllLayout(lead) && Catalog.IsStream(chunks)
    requires ReadFile(fs, Resolve(filePath + "/" + op + "/" + "catalog.json")) == Some(lead + Catalog.Body(chunks))
    ensures var trace, originals := CatalogTrace(fs, filePath, op), ToConfigs(MendAll(Catalog.Docs(chunks)));
            && (trace.0 <==> Catalog.NewlineSeparated(chunks) && originals.Some?)
            && (!trace.0 ==> trace.1 == [])
            && (trace.0 ==> ShownTexts(trace.1) == DecodeEach(ShownLiterals(DropAll(Catalog.Docs(chunks)))))
            && (trace.0 && PlainDocs(Catalog.Docs(chunks)) ==> trace.1 == CatalogLines(StripConfigs(originals.value)))
    ensures StableDocs(Catalog.Docs(chunks)) ==> ToConfigs(MendAll(Catalog.Docs(chunks))) == ToConfigs(Catalog.Docs(chunks))
  {
    var data := lead + Catalog.Body(chunks);
    assert CatalogTrace(fs, filePath, op) == DataTrace(Some(data));
    StreamConfigs(lead, chunks);
    StreamShows(lead, chunks);
  }

  class Manifest {
    const disk: Disk
    const log: Log.Logger
    const gunzip: Decoder

    constructor (disk: Disk, log: Log.Logger, gunzip: Decoder)
      ensures this.disk == disk && this.log == log && this.gunzip == gunzip
    {
      this.disk, this.log, this.gunzip := disk, log, gunzip;
    }

    /** One entry of an archive. */
    method UntarEntry(e: Extraction.Entry, path: string, needle: string) returns (failure: Option<Failure>)
      requires disk.Valid()
      modifies disk
      ensures disk.Valid()
      ensures Result(disk.files, failure) == Run(old(disk.files), EntryActions(path, needle, e))
      ensures EntryEffect(old(disk.files), e, path, needle, disk.files, failure)
    {
      EntryExactly(disk.files, path, needle, e);
      failure := None;
      ghost var before, acts := disk.files, EntryActions(path, needle, e);
      if acts != [] {
        RunOne(before, acts[0]);
      }
      if Contains(e.name, needle) {
        match e.kind
        case Directory =>
          if e.name != "./" {
            var ok := disk.MkdirAll(path + "/" + e.name);
            MadeAll(before, Resolve(path + "/" + e.name), disk.files);
            if !ok {
              failure := Some(MkdirFailed);
            }
          }
        case Regular(data, intact) =>
          failure := UntarFile(path + "/" + e.name, data, intact);
        case Other =>
      } else if e.kind.Regular? && !e.kind.intact {
        failure := Some(NextFailed);
      }
    }

    /** A regular entry: create the file, then copy the data into it. */
    method UntarFile(name: string, data: string, intact: bool) returns (failure: Option<Failure>)
      requires disk.Valid()
      modifies disk
      ensures disk.Valid()
      ensures Result(disk.files, failure) ==
              if DirectoryName(name) then Result(old(disk.files), Some(CreateFailed))
              else Perform(old(disk.files), Write(Resolve(name), data, intact))
    {
      ghost var before, p := disk.files, Resolve(name);
      var ok := disk.Create(name);
      if !ok {
        SameFiles(disk.files, before);
        return Some(CreateFailed);
      }
      disk.Fill(name, data);
      WriteWellFormed(before, p, data);
      SameFiles(disk.files, before[p := File(data)]);
      failure := if intact then None else Some(CopyFailed);
    }

    /** untar: the archive's entries in order, up to the first failure. */
    method Untar(blob: Blob, path: string, cfgDirName: string) returns (failure: Option<Failure>)
      requires disk.Valid()
      modifies disk
      ensures disk.Valid()
      ensures Result(disk.files, failure) ==
              Run(old(disk.files), BlobActions(path, TrimSlashes(cfgDirName), blob))
    {
      var needle := TrimSlashes(cfgDirName);
      ghost var whole := Run(disk.files, BlobActions(path, needle, blob));
      if blob.NotGzip? {
        RunOne(disk.files, Halt(GzipFailed));
        return Some(GzipFailed);
      }
      ghost var tail := if blob.endsWell then [] else [Halt(NextFailed)];
      assert blob.entries[0..] == blob.entries;
      assert BlobActions(path, needle, blob) == EntriesActions(path, needle, blob.entries) + tail;
      for i := 0 to |blob.entries|
        invariant disk.Valid()
        invariant whole == Run(disk.files, EntriesActions(path, needle, blob.entries[i..]) + tail)
      {
        var e := blob.entries[i];
        ghost var rest := EntriesActions(path, needle, blob.entries[i + 1..]) + tail;
        assert EntriesActions(path, needle, blob.entries[i..]) + tail == EntryActions(path, needle, e) + rest by {
          assert blob.entries[i..][1..] == blob.entries[i + 1..];
        }
        RunConcat(disk.files, EntryActions(path, needle, e), rest);
        failure := UntarEntry(e, path, needle);
        if failure.Some? {
          return;
        }
      }
      if !blob.endsWell {
        RunOne(disk.files, Halt(NextFailed));
        assert EntriesActions(path, needle, []) + tail == tail;
        return Some(NextFailed);
      }
      failure := None;
    }

    /** ExtractLayersOCI: nothing if the labelled directory is there, otherwise layer after layer. */
    method ExtractLayersOCI(fromPath: string, toPath: string, tag: string, digests: seq<string>)
      returns (failure: Option<Failure>)
      requires disk.Valid()
      modifies disk, log
      ensures disk.Valid()
      ensures Result(disk.files, failure) == Extract(old(disk.files), gunzip, fromPath, toPath, tag, digests)
      ensures log.lines == old(log.lines) +
              (if Missing(old(disk.files), Resolve(toPath + tag)) then [] else [Log.TarExists])
    {
      failure := None;
      if disk.IsMissing(toPath + tag) {
        ghost var needle := TrimSlashes(tag);
        assert digests[0..] == digests;
        for i := 0 to |digests|
          invariant disk.Valid()
          invariant failure.None? && log.lines == old(log.lines)
          invariant RunLayers(old(disk.files), gunzip, fromPath, toPath, needle, digests) ==
                    RunLayers(disk.files, gunzip, fromPath, toPath, needle, digests[i..])
        {
          assert digests[i..][0] == digests[i] && digests[i..][1..] == digests[i + 1..];
          failure := ExtractLayer(fromPath, toPath, tag, digests[i]);
          if failure.Some? {
            return;
          }
        }
      } else {
        log.Write(Log.TarExists);
      }
    }

    /** The body of the layer loop, lines 89 to 99. */
    method ExtractLayer(fromPath: string, toPath: string, tag: string, digest: string)
      returns (failure: Option<Failure>)
      requires disk.Valid()
      modifies disk
      ensures disk.Valid()
      ensures Result(disk.files, failure) ==
              Run(old(disk.files), LayerActions(old(disk.files), gunzip, fromPath, toPath, TrimSlashes(tag), digest))
    {
      ghost var acts := LayerActions(disk.files, gunzip, fromPath, toPath, TrimSlashes(tag), digest);
      if acts != [] {
        RunOne(disk.files, acts[0]);
      }
      if !Contains(digest, "sha256") {
        return Some(BadDigest);
      }
      var parts := Split(digest, ":");
      if |parts| < 2 {
        return Some(NoColon);
      }
      var blob := fromPath + "/" + parts[1];
      if disk.IsDirectory(blob) {
        return Some(GzipFailed);
      }
      var data := disk.Read(blob);
      if data.None? {
        return Some(NoBlob);
      }
      failure := Untar(gunzip(data.value), toPath, tag);
    }

    /** ListCatalogs: the lines of every object of the catalog, in order. */
    method ListCatalogs(filePath: string, op: string) returns (ok: bool)
      modifies log
      ensures ok == CatalogTrace(disk.files, filePath, op).0
      ensures log.lines == old(log.lines) + CatalogTrace(disk.files, filePath, op).1
    {
      var data := disk.Read(filePath + "/" + op + "/" + "catalog.json");
      if data.None? {
        return false;
      }
      var configs := ReadConfigs(data.value);
      if configs.None? {
        return false;
      }
      LogConfigs(configs.value);
      ok := true;
    }

    method LogConfigs(olm: seq<Config>)
      modifies log
      ensures log.lines == old(log.lines) + CatalogLines(olm)
    {
      ghost var done: seq<Log.Line> := [];
      assert olm[0..] == olm;
      for i := 0 to |olm|
        invariant log.lines == old(log.lines) + done
        invariant done + CatalogLines(olm[i..]) == CatalogLines(olm)
      {
        CatalogLinesAt(olm, i);
        Regroup(done, ConfigLines(olm[i]), CatalogLines(olm[i + 1..]));
        LogConfig(olm[i]);
        Regroup(old(log.lines), done, ConfigLines(olm[i]));
        done := done + ConfigLines(olm[i]);
      }
    }

    method LogConfig(obj: Config)
      modifies log
      ensures log.lines == old(log.lines) + ConfigLines(obj)
    {
      if obj.schema == "olm.channel" {
        log.Write(Log.Channel(obj.name));
        LogEntries(obj.entries);
      } else if obj.schema == "olm.bundle" {
        log.Write(Log.Bundle(obj.name));
      }
    }

    method LogEntries(entries: seq<Listing.Entry>)
      modifies log
      ensures log.lines == old(log.lines) + EntriesLines(entries)
    {
      ghost var done: seq<Log.Line> := [];
      assert entries[0..] == entries;
      for i := 0 to |entries|
        invariant log.lines == old(log.lines) + done
        invariant done + EntriesLines(entries[i..]) == EntriesLines(entries)
      {
        EntriesLinesAt(entries, i);
        Regroup(done, EntryLines(entries[i]), EntriesLines(entries[i + 1..]));
        LogEntry(entries[i]);
        Regroup(old(log.lines), done, EntryLines(entries[i]));
        done := done + EntryLines(entries[i]);
      }
    }

    method LogEntry(e: Listing.Entry)
      modifies log
      ensures log.lines == old(log.lines) + EntryLines(e)
    {
      log.Write(Log.EntryName(e.name));
      if |e.replaced| > 0 {
        log.Write(Log.Replaces(e.replaced));
      }
      if |e.skips| > 0 {
        LogSkips(e.skips);
      }
      if |e.skipRange| > 0 {
        log.Write(Log.SkipRange(e.skipRange));
      }
    }

    method LogSkips(skips: seq<string>)
      modifies log
      ensures log.lines == old(log.lines) + SkipLines(skips)
    {
      ghost var done: seq<Log.Line> := [];
      assert skips[0..] == skips;
      for i := 0 to |skips|
        invariant log.lines == old(log.lines) + done
        invariant done + SkipLines(skips[i..]) == SkipLines(skips)
      {
        SkipLinesAt(skips, i);
        log.Write(Log.Skips(skips[i]));
        done := done + [Log.Skips(skips[i])];
      }
    }
  }
}

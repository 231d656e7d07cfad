/** The integrity check of `verify-data.py`: stored chunks and files against the database. */
module VerifyData {
  import opened Text

  /** What the checker calls but does not define: the object store, zstd, the two hashes and
      nix-hash. `sha256` stands for feeding a hasher and taking its digest at the end. */
  datatype Env = Env(
    store: map<string, string>,
    decompress: string -> Option<string>,
    blake3: string -> string,
    sha256: string -> string,
    toNix32: string -> Option<string>)

  const SHA256_PREFIX := "sha256:"

  function StripPrefix(h: string): string {
    if SHA256_PREFIX <= h then h[|SHA256_PREFIX|..] else h
  }

  /** `hash_matches`: hexadecimal or nix base-32, with or without the prefix, never empty. */
  predicate HashMatches(env: Env, computed: string, expected: string) {
    var e := StripPrefix(expected);
    e != [] && (computed == e || env.toNix32(computed) == Some(e))
  }

  /** Exactly the values that a hash `h` matches: `h` itself or its nix base-32 form, bare or behind
      `sha256:`, but not bare if it starts that way itself. */
  lemma WhenHashMatches(env: Env, h: string, expected: string)
    ensures HashMatches(env, h, expected) <==>
      || (h != [] && (expected == "sha256:" + h || (expected == h && !("sha256:" <= h))))
      || (env.toNix32(h).Some? &&
          var n := env.toNix32(h).value;
          n != [] && (expected == "sha256:" + n || (expected == n && !("sha256:" <= n))))
  {
    if SHA256_PREFIX <= expected {
      assert expected == SHA256_PREFIX + expected[|SHA256_PREFIX|..];
    }
    assert ("sha256:" + h)[7..] == h;
    if env.toNix32(h).Some? {
      assert ("sha256:" + env.toNix32(h).value)[7..] == env.toNix32(h).value;
    }
  }

  /** `chunk_key`; an empty hash has no key (IndexError). */
  function ChunkKey(hash: string): string
    requires hash != []
  {
    "store/chunk/" + hash[..1] + "/" + hash[..if |hash| < 2 then 1 else 2] + "/" + hash
  }

  function NarFileKey(hash: string, compression: string): string
    requires hash != []
  {
    "store/nar/" + hash[..1] + "/" + hash[..if |hash| < 2 then 1 else 2] + "/" + hash + ".nar"
      + if compression == [] || compression == "none" then [] else "." + compression
  }

  datatype ChunkRow = ChunkRow(hash: string, size: int, compressedSize: int)

  datatype Problem =
    | NoChunks
    | MissingObject(key: string)
    | CompressedSize(key: string)
    | Undecodable(key: string)
    | Size(key: string)
    | Digest(key: string)
    | NarSize
    | NarHash
    | FileSize
    | FileHash

  // ----- what it means to be intact

  /** The object of a chunk is there and is what its row says. */
  predicate ChunkIntact(env: Env, row: ChunkRow)
    requires row.hash != []
  {
    var key := ChunkKey(row.hash);
    && key in env.store && |env.store[key]| == row.compressedSize
    && env.decompress(env.store[key]).Some?
    && var data := env.decompress(env.store[key]).value;
       |data| == row.size && env.blake3(data) == row.hash
  }

  function ChunkData(env: Env, row: ChunkRow): string
    requires row.hash != []
  {
    var key := ChunkKey(row.hash);
    if key in env.store && env.decompress(env.store[key]).Some?
    then env.decompress(env.store[key]).value else []
  }

  predicate Hashed(rows: seq<ChunkRow>) { forall i | 0 <= i < |rows| :: rows[i].hash != [] }

  /** The NAR put back together from its chunks in order. */
  function Reassembled(env: Env, rows: seq<ChunkRow>): string
    requires Hashed(rows)
  {
    if rows == [] then []
    else Reassembled(env, rows[..|rows| - 1]) + ChunkData(env, rows[|rows| - 1])
  }

  predicate CdcIntact(env: Env, rows: seq<ChunkRow>, narHash: string, narSize: int)
    requires Hashed(rows)
  {
    && rows != []
    && (forall i | 0 <= i < |rows| :: ChunkIntact(env, rows[i]))
    && |Reassembled(env, rows)| == narSize
    && HashMatches(env, env.sha256(Reassembled(env, rows)), narHash)
  }

  /** Where objects lie. */
  lemma StorePaths()
    ensures ChunkKey("abcd") == "store/chunk/a/ab/abcd" && ChunkKey("a") == "store/chunk/a/a/a"
    ensures NarFileKey("abcd", "xz") == "store/nar/a/ab/abcd.nar.xz"
    ensures NarFileKey("abcd", "none") == NarFileKey("abcd", "") == "store/nar/a/ab/abcd.nar"
  {
    assert "abcd"[..1] == "a" && "abcd"[..2] == "ab" && "a"[..1] == "a";
  }

  /** A NAR is intact exactly if it has rows, each row's object has the recorded size and decodes to
      data with the recorded size and BLAKE3 hash, and all data together has the recorded size and
      the SHA-256 hash in one of its spellings. */
  lemma WhenNarIsIntact(env: Env, rows: seq<ChunkRow>, narHash: string, narSize: int)
    requires Hashed(rows)
    ensures var h := env.sha256(Reassembled(env, rows));
      CdcIntact(env, rows, narHash, narSize) <==>
        && |rows| > 0
        && (forall i | 0 <= i < |rows| ::
              && ChunkKey(rows[i].hash) in env.store
              && |env.store[ChunkKey(rows[i].hash)]| == rows[i].compressedSize
              && env.decompress(env.store[ChunkKey(rows[i].hash)]) == Some(ChunkData(env, rows[i]))
              && |ChunkData(env, rows[i])| == rows[i].size
              && env.blake3(ChunkData(env, rows[i])) == rows[i].hash)
        && |Reassembled(env, rows)| == narSize
        && HashMatches(env, h, narHash)
  {
    hide HashMatches, ChunkKey;
    assert forall i | 0 <= i < |rows| :: ChunkIntact(env, rows[i]) ==>
      env.decompress(env.store[ChunkKey(rows[i].hash)]) == Some(ChunkData(env, rows[i]));
  }

  /** The ways in which one chunk can fail, each with the object it is about. */
  ghost predicate ChunkFault(env: Env, row: ChunkRow, p: Problem)
    requires row.hash != []
  {
    var key := ChunkKey(row.hash);
    var there := key in env.store;
    var data := if there then env.decompress(env.store[key]) else None;
    || (p == MissingObject(key) && !there)
    || (p == CompressedSize(key) && there && |env.store[key]| != row.compressedSize)
    || (p == Undecodable(key) && there && data.None?)
    || (p == Size(key) && data.Some? && |data.value| != row.size)
    || (p == Digest(key) && data.Some? && env.blake3(data.value) != row.hash)
  }

  /** Which problem stands for what, given the object and the data it decodes to. */
  lemma FaultsByKind(env: Env, row: ChunkRow, compressed: string, data: string)
    requires row.hash != []
    ensures var key := ChunkKey(row.hash);
      && (key !in env.store ==> forall p :: ChunkFault(env, row, p) <==> p == MissingObject(key))
      && (key in env.store && env.store[key] == compressed ==>
            (ChunkFault(env, row, CompressedSize(key)) <==> |compressed| != row.compressedSize)
            && (ChunkFault(env, row, Undecodable(key)) <==> env.decompress(compressed) == None))
      && (key in env.store && env.decompress(env.store[key]) == Some(data) ==>
            (ChunkFault(env, row, Size(key)) <==> |data| != row.size)
            && (ChunkFault(env, row, Digest(key)) <==> env.blake3(data) != row.hash))
  {
    hide ChunkKey;
  }

  /** Everything that is wrong with a NAR: no chunks at all, the faults of its chunks, and, if the
      chunks have none, the size or the hash of the whole. */
  ghost predicate CdcFault(env: Env, rows: seq<ChunkRow>, narHash: string, narSize: int, p: Problem)
    requires Hashed(rows)
  {
    || (rows == [] && p == NoChunks)
    || SomeChunkFault(env, rows, p)
    || (rows != [] && (forall i | 0 <= i < |rows| :: ChunkIntact(env, rows[i]))
        && ((p == NarSize && |Reassembled(env, rows)| != narSize)
            || (p == NarHash && !HashMatches(env, env.sha256(Reassembled(env, rows)), narHash))))
  }

  ghost predicate SomeChunkFault(env: Env, rows: seq<ChunkRow>, p: Problem)
    requires Hashed(rows)
  {
    exists i | 0 <= i < |rows| :: ChunkFault(env, rows[i], p)
  }

  // ----- verify_cdc

  /** The body of the chunk loop; `None` for the data is Python's `continue`. */
  method CheckChunk(env: Env, row: ChunkRow) returns (problems: seq<Problem>, data: Option<string>)
    requires row.hash != []
    ensures problems == [] <==> ChunkIntact(env, row)
    ensures data.Some? ==> data.value == ChunkData(env, row)
    ensures data.None? ==> problems != [] && ChunkData(env, row) == []
    ensures forall p :: p in problems <==> ChunkFault(env, row, p)
  {
    problems := [];
    var key := ChunkKey(row.hash);
    if key !in env.store {
      return [MissingObject(key)], None;
    }
    var compressed := env.store[key];
    if |compressed| != row.compressedSize {
      problems := problems + [CompressedSize(key)];
    }
    var decompressed := env.decompress(compressed);
    if decompressed.None? {
      return problems + [Undecodable(key)], None;
    }
    if |decompressed.value| != row.size {
      problems := problems + [Size(key)];
    }
    if env.blake3(decompressed.value) != row.hash {
      problems := problems + [Digest(key)];
    }
    data := decompressed;
  }

  /** The chunk loop of `verify_cdc`: the faults of the chunks, and the bytes hashed and counted. */
  method CheckChunks(env: Env, rows: seq<ChunkRow>)
    returns (problems: seq<Problem>, hashed: string, total: nat)
    requires Hashed(rows)
    ensures problems == [] <==> forall i | 0 <= i < |rows| :: ChunkIntact(env, rows[i])
    ensures forall p :: p in problems <==> SomeChunkFault(env, rows, p)
    ensures hashed == Reassembled(env, rows) && total == |hashed|
  {
    hide ChunkIntact, ChunkFault, SomeChunkFault, ChunkData, ChunkKey;
    problems, hashed, total := [], "", 0;
    NoFaults(env);
    for i := 0 to |rows|
      invariant problems == [] <==> forall k | 0 <= k < i :: ChunkIntact(env, rows[k])
      invariant forall p :: p in problems <==> SomeChunkFault(env, rows[..i], p)
      invariant hashed == Reassembled(env, rows[..i]) && total == |hashed|
    {
      var found, data := CheckChunk(env, rows[i]);
      assert rows[..i + 1][..i] == rows[..i];
      MoreFaults(env, rows[..i], rows[i]);
      assert rows[..i + 1] == rows[..i] + [rows[i]];
      assert problems + found == [] <==> problems == [] && found == [];
      problems := problems + found;
      if data.Some? {
        hashed, total := hashed + data.value, total + |data.value|;
      }
    }
    assert rows[..|rows|] == rows;
  }

  /** `verify_cdc` on the rows of one NAR file, in chunk_index order. */
  method VerifyCdc(env: Env, rows: seq<ChunkRow>, narHash: string, narSize: int)
    returns (problems: seq<Problem>)
    requires Hashed(rows)
    ensures problems == [] <==> CdcIntact(env, rows, narHash, narSize)
    ensures problems == [] ==>
      var h := env.sha256(Reassembled(env, rows));
      narHash == h || narHash == "sha256:" + h
      || (env.toNix32(h).Some? &&
            (narHash == env.toNix32(h).value || narHash == "sha256:" + env.toNix32(h).value))
    ensures forall p :: p in problems <==> CdcFault(env, rows, narHash, narSize, p)
  {
    hide ChunkIntact, SomeChunkFault, HashMatches, Reassembled;
    NoFaults(env);
    if rows == [] {
      return [NoChunks];
    }
    var hashed, total;
    problems, hashed, total := CheckChunks(env, rows);
    if problems != [] {
      return;
    }
    if total != narSize {
      problems := problems + [NarSize];
    }
    WhenHashMatches(env, env.sha256(hashed), narHash);
    if !HashMatches(env, env.sha256(hashed), narHash) {
      problems := problems + [NarHash];
    }
  }

  lemma NoFaults(env: Env)
    ensures forall p :: !SomeChunkFault(env, [], p)
  {
  }

  lemma MoreFaults(env: Env, rows: seq<ChunkRow>, row: ChunkRow)
    requires Hashed(rows) && row.hash != []
    ensures Hashed(rows + [row])
    ensures forall p :: SomeChunkFault(env, rows + [row], p)
                    <==> SomeChunkFault(env, rows, p) || ChunkFault(env, row, p)
  {
    var more := rows + [row];
    assert more[|rows|] == row;
    assert forall i | 0 <= i < |rows| :: more[i] == rows[i];
  }

  function RecordedSize(rows: seq<ChunkRow>): int {
    if rows == [] then 0 else RecordedSize(rows[..|rows| - 1]) + rows[|rows| - 1].size
  }

  /** The recorded chunk sizes of an intact NAR add up to its recorded size. */
  lemma {:induction false} SizesAddUp(env: Env, rows: seq<ChunkRow>)
    requires Hashed(rows) && forall i | 0 <= i < |rows| :: ChunkIntact(env, rows[i])
    ensures RecordedSize(rows) == |Reassembled(env, rows)|
  {
    if rows != [] {
      SizesAddUp(env, rows[..|rows| - 1]);
      assert ChunkIntact(env, rows[|rows| - 1]);
    }
  }

  lemma CdcSizesAddUp(env: Env, rows: seq<ChunkRow>, narHash: string, narSize: int)
    requires Hashed(rows) && CdcIntact(env, rows, narHash, narSize)
    ensures RecordedSize(rows) == narSize
  {
    SizesAddUp(env, rows);
  }

  /** Two different strings that hash to the same value. */
  ghost predicate Collision(env: Env, a: string, b: string, hash: string) {
    a != b && env.blake3(a) == hash && env.blake3(b) == hash
  }

  /** The rows alone determine the NAR: two stores that both pass the chunk checks put back together
      the same bytes, however they are compressed, or one of the rows exhibits a BLAKE3 collision. */
  lemma {:induction false} RowsDetermineTheNar(env: Env, other: map<string, string>, rows: seq<ChunkRow>)
    requires Hashed(rows)
    requires forall i | 0 <= i < |rows| ::
      ChunkIntact(env, rows[i]) && ChunkIntact(env.(store := other), rows[i])
    ensures
      || Reassembled(env, rows) == Reassembled(env.(store := other), rows)
      || exists i | 0 <= i < |rows| ::
           Collision(env, ChunkData(env, rows[i]), ChunkData(env.(store := other), rows[i]), rows[i].hash)
  {
    if rows != [] {
      var n := |rows| - 1;
      var init, last := rows[..n], rows[n];
      RowsDetermineTheNar(env, other, init);
      assert ChunkIntact(env, last) && ChunkIntact(env.(store := other), last);
      if Reassembled(env, init) != Reassembled(env.(store := other), init) {
        var i :| 0 <= i < n && Collision(env, ChunkData(env, init[i]),
                                         ChunkData(env.(store := other), init[i]), init[i].hash);
        assert rows[i] == init[i];
      } else if ChunkData(env, last) != ChunkData(env.(store := other), last) {
        assert Collision(env, ChunkData(env, last), ChunkData(env.(store := other), last), last.hash);
      }
    }
  }

  // ----- verify_flat

  predicate FlatIntact(env: Env, hash: string, compression: string, fileSize: int, fileHash: string)
    requires hash != []
  {
    var key := NarFileKey(hash, compression);
    && key in env.store && |env.store[key]| == fileSize
    && HashMatches(env, env.sha256(env.store[key]), fileHash)
  }

  const READ_SIZE: nat := 65536

  /** `verify_flat`: the file is read, hashed and measured piece by piece. */
  method VerifyFlat(env: Env, hash: string, compression: string, fileSize: int, fileHash: string)
    returns (problems: seq<Problem>)
    requires hash != []
    ensures problems == [] <==> FlatIntact(env, hash, compression, fileSize, fileHash)
    ensures problems == [] ==>
      var h := env.sha256(env.store[NarFileKey(hash, compression)]);
      fileHash == h || fileHash == "sha256:" + h
      || (env.toNix32(h).Some? &&
            (fileHash == env.toNix32(h).value || fileHash == "sha256:" + env.toNix32(h).value))
    ensures var key := NarFileKey(hash, compression);
      && (key !in env.store ==> problems == [MissingObject(key)])
      && (key in env.store ==>
            && (FileSize in problems <==> |env.store[key]| != fileSize)
            && (FileHash in problems <==> !HashMatches(env, env.sha256(env.store[key]), fileHash)))
  {
    problems := [];
    var key := NarFileKey(hash, compression);
    if key !in env.store {
      return [MissingObject(key)];
    }
    var file := env.store[key];
    var hashed, actual := "", 0;
    while actual < |file|
      invariant actual <= |file| && hashed == file[..actual]
    {
      var next := if |file| - actual < READ_SIZE then |file| else actual + READ_SIZE;
      var piece := file[actual..next];
      hashed, actual := hashed + piece, actual + |piece|;
    }
    assert file[..|file|] == file;
    if actual != fileSize {
      problems := problems + [FileSize];
    }
    WhenHashMatches(env, env.sha256(hashed), fileHash);
    if !HashMatches(env, env.sha256(hashed), fileHash) {
      problems := problems + [FileHash];
    }
  }

  // ----- main

  datatype NarInfo = NarInfo(id: int, narHash: string, narSize: int, fileHash: string)

  datatype NarFileRow = NarFileRow(
    id: int, totalChunks: int, hash: string, compression: string, fileSize: int)

  /** The two queries of the run: the NAR files of a narinfo, and the chunks of a NAR file. */
  datatype Db = Db(narFiles: int -> seq<NarFileRow>, chunks: int -> seq<ChunkRow>)

  /** The schema's NotEmpty rules on the rows a run can meet. */
  ghost predicate WellFormed(db: Db) {
    && (forall id :: forall i | 0 <= i < |db.narFiles(id)| :: db.narFiles(id)[i].hash != [])
    && (forall id :: Hashed(db.chunks(id)))
  }

  /** The file is stored the way the mode wants it, and intact. */
  ghost predicate FilePasses(env: Env, db: Db, cdc: bool, ni: NarInfo, nf: NarFileRow)
    requires nf.hash != [] && Hashed(db.chunks(nf.id))
  {
    if cdc then nf.totalChunks != 0 && CdcIntact(env, db.chunks(nf.id), ni.narHash, ni.narSize)
    else nf.totalChunks <= 0 && FlatIntact(env, nf.hash, nf.compression, nf.fileSize, ni.fileHash)
  }

  /** A file stored in the other mode never passes; otherwise being intact decides. */
  lemma WhenFilePasses(env: Env, db: Db, ni: NarInfo, nf: NarFileRow)
    requires nf.hash != [] && Hashed(db.chunks(nf.id))
    ensures nf.totalChunks == 0 ==> !FilePasses(env, db, true, ni, nf)
    ensures nf.totalChunks > 0 ==> !FilePasses(env, db, false, ni, nf)
    ensures nf.totalChunks > 0 ==>
      (FilePasses(env, db, true, ni, nf) <==>
        CdcIntact(env, db.chunks(nf.id), ni.narHash, ni.narSize))
    ensures nf.totalChunks == 0 ==>
      (FilePasses(env, db, false, ni, nf) <==>
        FlatIntact(env, nf.hash, nf.compression, nf.fileSize, ni.fileHash))
  {
    hide CdcIntact, FlatIntact;
  }

  ghost predicate NarInfoPasses(env: Env, db: Db, cdc: bool, ni: NarInfo)
    requires WellFormed(db)
  {
    var files := db.narFiles(ni.id);
    files != [] && forall i | 0 <= i < |files| :: FilePasses(env, db, cdc, ni, files[i])
  }

  /** The number of the first `n` files that fail. */
  ghost function FailingFiles(env: Env, db: Db, cdc: bool, ni: NarInfo, n: nat): nat
    requires WellFormed(db) && n <= |db.narFiles(ni.id)|
  {
    if n == 0 then 0
    else FailingFiles(env, db, cdc, ni, n - 1)
           + if FilePasses(env, db, cdc, ni, db.narFiles(ni.id)[n - 1]) then 0 else 1
  }

  /** One failure for a narinfo without files, else one for each of its files that fails. */
  ghost function Failures(env: Env, db: Db, cdc: bool, selected: seq<NarInfo>): nat
    requires WellFormed(db)
  {
    if selected == [] then 0
    else
      var ni := selected[|selected| - 1];
      var n := |db.narFiles(ni.id)|;
      Failures(env, db, cdc, selected[..|selected| - 1])
        + if n == 0 then 1 else FailingFiles(env, db, cdc, ni, n)
  }

  /** The body of the file loop. */
  method CheckFile(env: Env, db: Db, cdc: bool, ni: NarInfo, nf: NarFileRow) returns (ok: bool)
    requires nf.hash != [] && Hashed(db.chunks(nf.id))
    ensures ok <==> FilePasses(env, db, cdc, ni, nf)
  {
    if cdc {
      if nf.totalChunks == 0 {
        return false;
      }
      var problems := VerifyCdc(env, db.chunks(nf.id), ni.narHash, ni.narSize);
      ok := problems == [];
    } else {
      if nf.totalChunks > 0 {
        return false;
      }
      var problems := VerifyFlat(env, nf.hash, nf.compression, nf.fileSize, ni.fileHash);
      ok := problems == [];
    }
  }

  /** The verdict loop of `main`. */
  method Run(env: Env, db: Db, cdc: bool, selected: seq<NarInfo>)
    returns (failures: nat, success: bool)
    requires WellFormed(db)
    ensures failures == Failures(env, db, cdc, selected)
    ensures success <==> forall i | 0 <= i < |selected| :: NarInfoPasses(env, db, cdc, selected[i])
  {
    failures := 0;
    for i := 0 to |selected|
      invariant failures == Failures(env, db, cdc, selected[..i])
    {
      var ni := selected[i];
      assert selected[..i + 1][..i] == selected[..i];
      var files := db.narFiles(ni.id);
      if |files| == 0 {
        failures := failures + 1;
      } else {
        ghost var before := failures;
        for j := 0 to |files|
          invariant failures == before + FailingFiles(env, db, cdc, ni, j)
        {
          var ok := CheckFile(env, db, cdc, ni, files[j]);
          if !ok {
            failures := failures + 1;
          }
        }
      }
    }
    assert selected[..|selected|] == selected;
    NoFailures(env, db, cdc, selected);
    success := failures == 0;
  }

  ghost function Failing(env: Env, db: Db, cdc: bool, ni: NarInfo, n: nat): set<nat>
    requires WellFormed(db) && n <= |db.narFiles(ni.id)|
  {
    set i: nat | i < n && !FilePasses(env, db, cdc, ni, db.narFiles(ni.id)[i])
  }

  /** Each failing file counts once. */
  lemma {:induction false} FailingFilesCount(env: Env, db: Db, cdc: bool, ni: NarInfo, n: nat)
    requires WellFormed(db) && n <= |db.narFiles(ni.id)|
    ensures FailingFiles(env, db, cdc, ni, n) == |Failing(env, db, cdc, ni, n)|
  {
    hide FilePasses, WellFormed;
    if n == 0 {
      assert Failing(env, db, cdc, ni, 0) == {};
    } else {
      FailingFilesCount(env, db, cdc, ni, n - 1);
      var before := Failing(env, db, cdc, ni, n - 1);
      FailingOneMore(env, db, cdc, ni, n);
      assert n - 1 !in before;
    }
  }

  lemma FailingOneMore(env: Env, db: Db, cdc: bool, ni: NarInfo, n: nat)
    requires WellFormed(db) && 0 < n <= |db.narFiles(ni.id)|
    ensures Failing(env, db, cdc, ni, n) == Failing(env, db, cdc, ni, n - 1)
      + if FilePasses(env, db, cdc, ni, db.narFiles(ni.id)[n - 1]) then {} else {n - 1}
  {
    hide FilePasses;
  }

  /** A narinfo adds one failure if it has no files, else one for each file that fails. */
  lemma FailuresOneMore(env: Env, db: Db, cdc: bool, selected: seq<NarInfo>, ni: NarInfo)
    requires WellFormed(db)
    ensures Failures(env, db, cdc, []) == 0
    ensures var files := db.narFiles(ni.id);
      Failures(env, db, cdc, selected + [ni]) == Failures(env, db, cdc, selected)
        + if files == [] then 1
          else |set i: nat | i < |files| && !FilePasses(env, db, cdc, ni, files[i])|
  {
    hide FilePasses;
    assert (selected + [ni])[..|selected|] == selected;
    FailingFilesCount(env, db, cdc, ni, |db.narFiles(ni.id)|);
  }

  lemma {:induction false} NoFailingFiles(env: Env, db: Db, cdc: bool, ni: NarInfo, n: nat)
    requires WellFormed(db) && n <= |db.narFiles(ni.id)|
    ensures FailingFiles(env, db, cdc, ni, n) == 0 <==>
      forall i | 0 <= i < n :: FilePasses(env, db, cdc, ni, db.narFiles(ni.id)[i])
  {
    if n > 0 {
      NoFailingFiles(env, db, cdc, ni, n - 1);
    }
  }

  lemma {:induction false} NoFailures(env: Env, db: Db, cdc: bool, selected: seq<NarInfo>)
    requires WellFormed(db)
    ensures Failures(env, db, cdc, selected) == 0 <==>
      forall i | 0 <= i < |selected| :: NarInfoPasses(env, db, cdc, selected[i])
  {
    hide FilePasses;
    if selected != [] {
      var n := |selected| - 1;
      NoFailures(env, db, cdc, selected[..n]);
      NoFailingFiles(env, db, cdc, selected[n], |db.narFiles(selected[n].id)|);
      assert forall i | 0 <= i < n :: selected[..n][i] == selected[i];
    }
  }
}

/** Log rotation (`rotate_logs`) and the instance starts that drive it. */
module LogRotation {
  import opened Text

  /** `log_path`, or `log_path.<rank>.gz`. A backup stands for the text it decompresses to. */
  datatype File = Log | Backup(rank: int)

  type Files = map<File, string>

  function Lookup(files: Files, f: File): Option<string> {
    if f in files then Some(files[f]) else None
  }

  /** What stands at `f` once the backups of rank above `i` and below the maximum have each been
      renamed one rank up. */
  function ShiftedAt(files: Files, i: int, maxBackups: int, f: File): Option<string> {
    if f.Backup? && i + 1 < f.rank <= maxBackups && Backup(f.rank - 1) in files
    then Lookup(files, Backup(f.rank - 1))
    else if f.Backup? && i < f.rank < maxBackups then None
    else Lookup(files, f)
  }

  /** What stands at `f` after one rotation. */
  function RotatedAt(files: Files, maxBackups: int, f: File): Option<string> {
    if Log !in files then Lookup(files, f)
    else if f == Log then None
    else if f == Backup(1) then Lookup(files, Log)
    else ShiftedAt(files, 0, maxBackups, f)
  }

  function Capacity(maxBackups: int): int { if maxBackups < 1 then 1 else maxBackups }

  /** After these starts the log belongs to the last one, and the backup of rank k, up to the
      capacity, to the k-th start before it. */
  function ExpectedAt(starts: seq<string>, maxBackups: int, f: File): Option<string> {
    var n := |starts|;
    match f
    case Log => if n > 0 then Some(starts[n - 1]) else None
    case Backup(k) =>
      if 1 <= k <= Capacity(maxBackups) && k < n then Some(starts[n - 1 - k]) else None
  }

  /** The log is that of the newest start; each backup is one start older than the one before it. */
  lemma ExpectedByAge(starts: seq<string>, text: string, maxBackups: int, k: int)
    ensures ExpectedAt(starts + [text], maxBackups, Log) == Some(text)
    ensures ExpectedAt(starts + [text], maxBackups, Backup(1)) == ExpectedAt(starts, maxBackups, Log)
    ensures 1 <= k < maxBackups ==>
      ExpectedAt(starts + [text], maxBackups, Backup(k + 1)) == ExpectedAt(starts, maxBackups, Backup(k))
    ensures k < 1 || (k > maxBackups && k > 1) ==>
      ExpectedAt(starts, maxBackups, Backup(k)) == None
    ensures ExpectedAt([], maxBackups, Log) == None && ExpectedAt([], maxBackups, Backup(k)) == None
  {
  }

  lemma ShiftOne(files: Files, i: int, maxBackups: int, before: Files, after: Files)
    requires 0 < i < maxBackups
    requires forall f :: Lookup(before, f) == ShiftedAt(files, i, maxBackups, f)
    requires var s, d := Backup(i), Backup(i + 1);
      after == if s in before then before[d := before[s]] - {s} else before
    ensures forall f :: Lookup(after, f) == ShiftedAt(files, i - 1, maxBackups, f)
  {
    assert Lookup(before, Backup(i)) == Lookup(files, Backup(i));
    forall f ensures Lookup(after, f) == ShiftedAt(files, i - 1, maxBackups, f) {
      assert Lookup(before, f) == ShiftedAt(files, i, maxBackups, f);
    }
  }

  lemma StartOne(starts: seq<string>, text: string, maxBackups: int,
                 before: Files, rotated: Files, after: Files)
    requires forall f :: Lookup(before, f) == ExpectedAt(starts, maxBackups, f)
    requires forall f :: Lookup(rotated, f) == RotatedAt(before, maxBackups, f)
    requires after == rotated[Log := text]
    ensures forall f :: Lookup(after, f) == ExpectedAt(starts + [text], maxBackups, f)
  {
    assert Lookup(before, Log) == ExpectedAt(starts, maxBackups, Log);
    forall f ensures Lookup(after, f) == ExpectedAt(starts + [text], maxBackups, f) {
      assert Lookup(rotated, f) == RotatedAt(before, maxBackups, f);
      assert Lookup(before, f) == ExpectedAt(starts, maxBackups, f);
      if f.Backup? {
        var down := Backup(f.rank - 1);
        assert Lookup(before, down) == ExpectedAt(starts, maxBackups, down);
      }
    }
  }

  class LogDirectory {
    const maxBackups: int
    var files: Files
    ghost var starts: seq<string>  // the complete log of every start so far

    ghost predicate Valid()
      reads this
    {
      forall f :: Lookup(files, f) == ExpectedAt(starts, maxBackups, f)
    }

    constructor (maxBackups: int)
      ensures Valid() && starts == [] && this.maxBackups == maxBackups
    {
      this.maxBackups, files, starts := maxBackups, map[], [];
    }

    /** `rotate_logs`, from any files at all. */
    method RotateLogs()
      modifies this`files
      ensures forall f :: Lookup(files, f) == RotatedAt(old(files), maxBackups, f)
    {
      if Log !in files {
        return;
      }
      var i := maxBackups - 1;
      while i > 0
        invariant maxBackups >= 1 ==> 0 <= i < maxBackups
        invariant maxBackups < 1 ==> i == maxBackups - 1
        invariant forall f :: Lookup(files, f) == ShiftedAt(old(files), i, maxBackups, f)
      {
        ghost var before := files;
        var s, d := Backup(i), Backup(i + 1);
        if s in files {
          files := files[d := files[s]] - {s};  // os.rename replaces an existing destination
        }
        ShiftOne(old(files), i, maxBackups, before, files);
        i := i - 1;
      }
      ghost var shifted := files;
      assert Lookup(files, Log) == Lookup(old(files), Log);
      if Log in files {
        files := files[Backup(1) := files[Log]];
        files := files - {Log};
      }
      forall f ensures Lookup(files, f) == RotatedAt(old(files), maxBackups, f) {
        assert Lookup(shifted, f) == ShiftedAt(old(files), 0, maxBackups, f);
      }
    }

    /** `internal_start_instance`: rotate, then write the new instance's log from scratch. */
    method Start(text: string)
      requires Valid()
      modifies this
      ensures Valid() && starts == old(starts) + [text]
    {
      ghost var before := files;
      RotateLogs();
      ghost var rotated := files;
      files := files[Log := text];
      StartOne(starts, text, maxBackups, before, rotated, files);
      starts := starts + [text];
    }
  }

  /** From any files, rank by rank: without a log nothing moves; otherwise each rank takes over from
      the one below, and the highest keeps its text if there is nothing to take over. */
  lemma RotatedByRank(files: Files, maxBackups: int, k: int)
    ensures Log !in files ==> RotatedAt(files, maxBackups, Backup(k)) == Lookup(files, Backup(k))
    ensures Log in files ==>
      && RotatedAt(files, maxBackups, Log) == None
      && RotatedAt(files, maxBackups, Backup(1)) == Some(files[Log])
      && (2 <= k <= maxBackups && Backup(k - 1) in files ==>
            RotatedAt(files, maxBackups, Backup(k)) == Some(files[Backup(k - 1)]))
      && (2 <= k < maxBackups && Backup(k - 1) !in files ==>
            RotatedAt(files, maxBackups, Backup(k)) == None)
      && (2 <= k == maxBackups && Backup(k - 1) !in files ==>
            RotatedAt(files, maxBackups, Backup(k)) == Lookup(files, Backup(k)))
  {
  }

  /** From any files at all: the text of backup k stands where the rotation should put it, one
      rank up while there is room, unless k is the highest rank and the rank below it, with
      another text, was taken. So that is the only backup a rotation can lose. */
  lemma OnlyTheOldestIsLost(files: Files, maxBackups: int, k: int)
    requires maxBackups >= 2 && Log in files && Backup(k) in files
    ensures RotatedAt(files, maxBackups, Backup(if 1 <= k < maxBackups then k + 1 else k))
         == Some(files[Backup(k)])
      <==> !(k == maxBackups && Backup(k - 1) in files && files[Backup(k - 1)] != files[Backup(k)])
  {
  }

  /** A rotation leaves every rank above the maximum alone, whatever the files, exactly if at least
      one backup is asked for. */
  lemma WhenRanksAreKept(maxBackups: int)
    ensures (forall files: Files, k: int | Log in files && k > maxBackups ::
               RotatedAt(files, maxBackups, Backup(k)) == Lookup(files, Backup(k)))
       <==> maxBackups >= 1
  {
    var files: Files := map[Log := "text"];
    assert RotatedAt(files, maxBackups, Backup(1)) != Lookup(files, Backup(1));
  }

  /** With room for one backup only, or none, every rotation replaces backup 1. */
  lemma SingleBackupIsReplaced(files: Files, maxBackups: int, f: File)
    requires maxBackups < 2 && Log in files
    ensures RotatedAt(files, maxBackups, f)
      == if f == Backup(1) then Some(files[Log]) else if f == Log then None else Lookup(files, f)
  {
  }
}

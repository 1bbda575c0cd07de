/**
 A file system as the snapshot writer sees it: named byte strings, single system calls that may
 fail, and a record of every state the disk went through.

 A crash between two system calls leaves the disk in one of the recorded states.  Durability
 against power loss is not modelled; `Sync` may only fail.
 */
module Disk {
  import opened Words
  import opened Outcomes

  type Path = string
  type Files = map<Path, seq<Byte>>

  function Lookup(files: Files, p: Path): Option<seq<Byte>> {
    if p in files then Some(files[p]) else None
  }

  /** `files` and `base` agree on every path outside `paths`. */
  ghost predicate SameExcept(files: Files, base: Files, paths: set<Path>) {
    forall p: Path :: p !in paths ==> Lookup(files, p) == Lookup(base, p)
  }

  /** Every state recorded from index `from` on differs from `base` only at `paths`. */
  ghost predicate OnlyTouched(history: seq<Files>, from: nat, base: Files, paths: set<Path>) {
    forall i :: from <= i < |history| ==> SameExcept(history[i], base, paths)
  }

  function Zeros(n: nat): (z: seq<Byte>)
    ensures |z| == n && forall i :: 0 <= i < n ==> z[i] == 0
  {
    seq(n, _ => 0)
  }

  /** A write of `bytes` at `pos`; a gap before it reads as zero, and an empty write leaves none. */
  function Splice(content: seq<Byte>, pos: nat, bytes: seq<Byte>): (r: seq<Byte>)
    ensures |r| == if bytes != [] && pos + |bytes| > |content| then pos + |bytes| else |content|
  {
    if bytes == [] then content
    else
      var head := if pos <= |content| then content[..pos] else content + Zeros(pos - |content|);
      head + bytes + (if pos + |bytes| <= |content| then content[pos + |bytes|..] else [])
  }

  /** A truncation or extension to `len`; the extension reads as zero. */
  function Resized(content: seq<Byte>, len: nat): (r: seq<Byte>)
    ensures |r| == len
  {
    if len <= |content| then content[..len] else content + Zeros(len - |content|)
  }

  /** Writing the next `n` bytes where the last write stopped extends that write. */
  lemma NextWrite(base: seq<Byte>, pos: nat, bytes: seq<Byte>, done: nat, n: nat)
    requires done + n <= |bytes|
    ensures Splice(Splice(base, pos, bytes[..done]), pos + done, bytes[done..][..n]) ==
            Splice(base, pos, bytes[..done + n])
  {
    assert bytes[..done + n] == bytes[..done] + bytes[done..][..n];
    SpliceTwice(base, pos, bytes[..done], bytes[done..][..n]);
  }

  /** Two writes in a row at consecutive positions are one write. */
  lemma SpliceTwice(content: seq<Byte>, pos: nat, a: seq<Byte>, b: seq<Byte>)
    ensures Splice(Splice(content, pos, a), pos + |a|, b) == Splice(content, pos, a + b)
  {
    if a == [] {
      assert a + b == b;
    } else if b == [] {
      assert a + b == a;
    }
  }

  lemma Overwrite(files: Files, path: Path, x: seq<Byte>, y: seq<Byte>)
    ensures files[path := x][path := y] == files[path := y]
  {
  }

  lemma EmptyWrite(files: Files, path: Path, pos: nat)
    requires path in files
    ensures files[path := Splice(files[path], pos, [])] == files
  {
  }

  /** A state that differs only at `path` may be appended to the record. */
  lemma OneMoreState(history: seq<Files>, from: nat, before: Files, path: Path, content: seq<Byte>)
    requires OnlyTouched(history, from, before, {path})
    ensures OnlyTouched(history + [before[path := content]], from, before, {path})
    ensures SameExcept(before[path := content], before, {path})
  {
  }

  /** Two stretches of the record that touch only `paths`, one after the other. */
  lemma TouchedThen(h0: seq<Files>, h1: seq<Files>, h2: seq<Files>, before: Files, mid: Files, paths: set<Path>)
    requires h0 <= h1 <= h2 && SameExcept(mid, before, paths)
    requires OnlyTouched(h1, |h0|, before, paths) && OnlyTouched(h2, |h1|, mid, paths)
    ensures h0 <= h2 && OnlyTouched(h2, |h0|, before, paths)
  {
    forall i | |h0| <= i < |h2| ensures SameExcept(h2[i], before, paths) {
      if i < |h1| { assert h2[i] == h1[i]; }
    }
  }

  /** The number of bytes a write call accepted. */
  function Taken(n: Option<nat>): nat {
    if n.Some? then n.value else 0
  }

  class FileSystem {
    var files: Files
    /** Every state since the disk was set up, the current one last. */
    ghost var history: seq<Files>
    /** Some `remove_file` has failed. */
    ghost var unlinkFailed: bool

    ghost predicate Valid()
      reads this
    {
      history != [] && history[|history| - 1] == files
    }

    /** Appends the current state to the record. */
    ghost method Record()
      modifies this`history
      ensures history == old(history) + [files]
    {
      history := history + [files];
    }

    method CheckSameFilesystem(dest: Path, temp: Path) returns (r: Result<()>)
      ensures r.Err? ==> r.error in {Io, AtomicCommitCrossFs}
    {
      var outcome: int := *;
      if outcome == 0 {
        return Ok(());
      }
      return Err(if outcome == 1 then Io else AtomicCommitCrossFs);
    }

    /** `open(O_WRONLY | O_CREAT | O_TRUNC)`. */
    method Create(path: Path) returns (ok: bool)
      requires Valid()
      modifies this
      ensures Valid() && unlinkFailed == old(unlinkFailed)
      ensures files == if ok then old(files)[path := []] else old(files)
      ensures history == old(history) + [files]
    {
      ok := *;
      if ok {
        files := files[path := []];
      }
      Record();
    }

    /** One `write(2)` at `pos`: some prefix of `bytes` is accepted, or nothing happens. */
    method Write(path: Path, pos: nat, bytes: seq<Byte>) returns (n: Option<nat>)
      requires Valid() && path in files
      modifies this
      ensures Valid() && unlinkFailed == old(unlinkFailed)
      ensures n.None? ==> files == old(files)
      ensures n.Some? ==> n.value <= |bytes| &&
                          files == old(files)[path := Splice(old(files)[path], pos, bytes[..n.value])]
      ensures history == old(history) + [files]
    {
      var accepted: int := *;
      if 0 <= accepted <= |bytes| {
        n := Some(accepted);
        files := files[path := Splice(files[path], pos, bytes[..accepted])];
      } else {
        n := None;
      }
      Record();
    }

    method SetLen(path: Path, len: nat) returns (ok: bool)
      requires Valid() && path in files
      modifies this
      ensures Valid() && unlinkFailed == old(unlinkFailed)
      ensures files == if ok then old(files)[path := Resized(old(files)[path], len)] else old(files)
      ensures history == old(history) + [files]
    {
      ok := *;
      if ok {
        files := files[path := Resized(files[path], len)];
      }
      Record();
    }

    method Sync(path: Path) returns (ok: bool)
      requires Valid() && path in files
      modifies this
      ensures Valid() && unlinkFailed == old(unlinkFailed) && files == old(files)
      ensures history == old(history) + [files]
    {
      ok := *;
      Record();
    }

    /** `rename(2)`: the destination is replaced in one step, or nothing happens. */
    method Rename(src: Path, dst: Path) returns (ok: bool)
      requires Valid() && src in files
      modifies this
      ensures Valid() && unlinkFailed == old(unlinkFailed)
      ensures files == if ok then (old(files) - {src})[dst := old(files)[src]] else old(files)
      ensures history == old(history) + [files]
    {
      ok := *;
      if ok {
        files := (files - {src})[dst := files[src]];
      }
      Record();
    }

    method Unlink(path: Path)
      requires Valid()
      modifies this
      ensures Valid()
      ensures files == old(files) || files == old(files) - {path}
      ensures !unlinkFailed ==> !old(unlinkFailed) && path !in files
      ensures history == old(history) + [files]
    {
      var ok: bool := *;
      if ok {
        files := files - {path};
      } else {
        unlinkFailed := true;
      }
      Record();
    }
  }

  /** An open file: writes go to `path` at the cursor. */
  class File {
    const fs: FileSystem
    const path: Path
    var pos: nat

    constructor (fs: FileSystem, path: Path)
      ensures this.fs == fs && this.path == path && pos == 0
    {
      this.fs, this.path, pos := fs, path, 0;
    }

    ghost predicate Open()
      reads this, fs
    {
      fs.Valid() && path in fs.files
    }

    /** One short write at the cursor. */
    method Write(bytes: seq<Byte>) returns (n: Option<nat>)
      requires Open()
      modifies this, fs
      ensures Open() && fs.unlinkFailed == old(fs.unlinkFailed)
      ensures Taken(n) <= |bytes| && pos == old(pos) + Taken(n)
      ensures fs.files == old(fs.files)[path := Splice(old(fs.files)[path], old(pos), bytes[..Taken(n)])]
      ensures fs.history == old(fs.history) + [fs.files]
    {
      n := fs.Write(path, pos, bytes);
      if n.Some? {
        pos := pos + n.value;
      } else {
        EmptyWrite(fs.files, path, pos);
      }
    }

    /**
     Writes everything or reports failure.  Either way a prefix of `bytes`, of length
     `accepted`, has reached the file, and no other path was touched on the way.
     */
    method WriteAll(bytes: seq<Byte>) returns (ok: bool, ghost accepted: nat)
      requires Open()
      modifies this, fs
      ensures Open() && fs.unlinkFailed == old(fs.unlinkFailed)
      ensures accepted <= |bytes| && (ok ==> accepted == |bytes|)
      ensures pos == old(pos) + accepted
      ensures fs.files == old(fs.files)[path := Splice(old(fs.files)[path], old(pos), bytes[..accepted])]
      ensures old(fs.history) <= fs.history
      ensures OnlyTouched(fs.history, |old(fs.history)|, old(fs.files), {path})
    {
      ghost var before, h0, start := fs.files, fs.history, pos;
      ghost var base := before[path];
      ghost var image := base;
      var done := 0;
      EmptyWrite(before, path, start);
      assert before[path := image] == before && bytes[..0] == [];
      while done < |bytes|
        invariant Open() && fs.unlinkFailed == old(fs.unlinkFailed)
        invariant done <= |bytes| && pos == start + done
        invariant fs.files == before[path := image] && image == Splice(base, start, bytes[..done])
        invariant h0 <= fs.history && OnlyTouched(fs.history, |h0|, before, {path})
      {
        ghost var h := fs.history;
        var n := Write(bytes[done..]);
        NextWrite(base, start, bytes, done, Taken(n));
        Overwrite(before, path, image, Splice(base, start, bytes[..done + Taken(n)]));
        image := Splice(base, start, bytes[..done + Taken(n)]);
        OneMoreState(h, |h0|, before, path, image);
        if Taken(n) == 0 {
          return false, done;
        }
        done := done + Taken(n);
      }
      return true, done;
    }
  }
}

/**
 The loops of user/dynamic_linker.c over memory that they also change.
 */
module LinkerRun {
  import opened Bytes
  import opened Linker

  /** The relocations of a table, in its order. */
  ghost function TableJobs(image: Image, table: u64, count: nat): (r: seq<Job>)
    ensures |r| == count
    ensures forall k :: 0 <= k < count ==> r[k] == Job(image, Add(table, k * RELA_BYTES))
  {
    seq(count, k requires 0 <= k => Job(image, Add(table, k * RELA_BYTES)))
  }

  lemma {:induction false} RunNext(mem: Memory, library: Image, jobs: seq<Job>, k: nat)
    requires k < |jobs| && Run(mem, library, jobs[..k]).1 == 0
    ensures Run(mem, library, jobs[..k + 1]) ==
            match EffectOf(Run(mem, library, jobs[..k]).0, library, jobs[k])
            case Put(target, value) => (Store(Run(mem, library, jobs[..k]).0, target, value), 0)
            case Fail(code) => (Run(mem, library, jobs[..k]).0, code)
  {
    hide EffectOf, Store;
    assert jobs[..k + 1][..k] == jobs[..k];
  }

  /** A failed run stays failed. */
  lemma {:induction false} RunStops(mem: Memory, library: Image, jobs: seq<Job>, k: nat)
    requires k <= |jobs| && Run(mem, library, jobs[..k]).1 != 0
    ensures Run(mem, library, jobs) == Run(mem, library, jobs[..k])
    decreases |jobs|
  {
    hide EffectOf, Store;
    if k < |jobs| {
      var shorter := jobs[..|jobs| - 1];
      assert shorter[..k] == jobs[..k];
      RunStops(mem, library, shorter, k);
    } else {
      assert jobs[..k] == jobs;
    }
  }

  lemma {:induction false} RunJoin(mem: Memory, library: Image, a: seq<Job>, b: seq<Job>)
    requires Run(mem, library, a).1 == 0
    ensures Run(mem, library, a + b) == Run(Run(mem, library, a).0, library, b)
    decreases |b|
  {
    hide EffectOf, Store;
    if b == [] {
      assert a + b == a;
    } else {
      var n := |b| - 1;
      RunJoin(mem, library, a, b[..n]);
      assert (a + b)[..|a + b| - 1] == a + b[..n];
    }
  }

  class Machine {
    var mem: Memory

    constructor (mem: Memory)
      ensures this.mem == mem
    {
      this.mem := mem;
    }

    method EqualStrings(left: u64, right: u64, limit: nat) returns (r: bool)
      ensures r == EqualString(mem, left, right, limit)
    {
      for index := 0 to limit
        invariant forall k: nat :: k < index ==> mem(Add(left, k)) != 0 && mem(Add(left, k)) == mem(Add(right, k))
      {
        if mem(Add(left, index)) != mem(Add(right, index)) {
          Differ(mem, left, right, limit, index);
          return false;
        }
        if mem(Add(left, index)) == 0 {
          assert SameString(mem, left, right, index);
          return true;
        }
      }
      return false;
    }

    method WritableTarget(image: Image, address: u64) returns (r: bool)
      ensures r == Writable(mem, image, address)
    {
      hide SegmentHolds, HeaderCount;
      if address + WORD >= SPACE {
        return false;
      }
      var count := HeaderCount(mem, image);
      for index := 0 to count
        invariant forall i: nat :: i < index ==> !SegmentHolds(mem, image, address, i)
      {
        if SegmentHolds(mem, image, address, index) {
          return true;
        }
      }
      return false;
    }

    method ResolveName(library: Image, name: u64) returns (r: u64)
      ensures r == Resolve(mem, library, name)
    {
      hide EqualString, Uint;
      var index: nat := 1;
      while index < library.symbolCount
        invariant FirstMatch(mem, library, name, index) == FirstMatch(mem, library, name, 1)
        decreases library.symbolCount - index
      {
        var symbol := library.symbols + index * SYM_BYTES;
        var offset := SymbolName(mem, library, index);
        if Uint(mem, symbol + 6, 2) != 0 && offset < library.stringBytes {
          var same := EqualStrings(name, Add(library.strings, offset), library.stringBytes - offset);
          if same {
            return Add(library.base, Read8(mem, symbol + 8));
          }
        }
        index := index + 1;
      }
      return 0;
    }

    method EffectFor(library: Image, job: Job) returns (e: Effect)
      ensures e == EffectOf(mem, library, job)
    {
      hide Writable, Resolve, Uint;
      var image := job.image;
      var info, addend := Read8(mem, job.rela + 8), Read8(mem, job.rela + 16);
      var kind, symbol := info % 0x1_0000_0000, info / 0x1_0000_0000;
      var target := Add(image.base, Read8(mem, job.rela));
      var writable := WritableTarget(image, target);
      if !writable {
        return Fail(84);
      }
      if kind == R_RELATIVE {
        return Put(target, Add(image.base, addend));
      }
      if kind != R_64 && kind != R_GLOB_DAT && kind != R_JUMP_SLOT {
        return Fail(87);
      }
      if symbol >= image.symbolCount || SymbolName(mem, image, symbol) >= image.stringBytes {
        return Fail(85);
      }
      var value := ResolveName(library, Add(image.strings, SymbolName(mem, image, symbol)));
      return if value == 0 then Fail(86) else Put(target, Add(value, addend));
    }

    /** One table, entry by entry, each store visible to the next. A failure ends the program. */
    method RelocateTable(image: Image, library: Image, table: u64, count: nat) returns (code: nat)
      modifies this
      ensures (mem, code) == Run(old(mem), library, TableJobs(image, table, count))
    {
      hide EffectOf, Run, Store;
      ghost var jobs := TableJobs(image, table, count);
      RunNothing(mem, library, jobs);
      code := 0;
      for index := 0 to count
        invariant code == 0 && Run(old(mem), library, jobs[..index]) == (mem, 0)
      {
        RunNext(old(mem), library, jobs, index);
        var effect := EffectFor(library, Job(image, Add(table, index * RELA_BYTES)));
        match effect
        case Put(target, value) =>
          mem := Store(mem, target, value);
        case Fail(c) =>
          FailCode(mem, library, jobs[index]);
          RunStops(old(mem), library, jobs, index + 1);
          return c;
      }
      assert jobs[..count] == jobs;
    }

    /** The four tables as _start applies them: the library's two, then the application's. */
    method Link(application: Image, library: Image, tables: seq<(u64, nat)>) returns (code: nat)
      requires |tables| == 4
      modifies this
      ensures (mem, code) == Run(old(mem), library, LinkJobs(application, library, tables))
    {
      hide Run, TableJobs;
      ghost var done: seq<Job> := [];
      RunNothing(mem, library, []);
      code := 0;
      for k := 0 to 4
        invariant code == 0 && done == JobsUpTo(application, library, tables, k) && Run(old(mem), library, done) == (mem, 0)
      {
        var image := if k < 2 then library else application;
        ghost var jobs := TableJobs(image, tables[k].0, tables[k].1);
        RunJoin(old(mem), library, done, jobs);
        code := RelocateTable(image, library, tables[k].0, tables[k].1);
        done := done + jobs;
        if code != 0 {
          UpToPrefix(application, library, tables, k + 1);
          ghost var all := LinkJobs(application, library, tables);
          assert all[..|done|] == done;
          RunStops(old(mem), library, all, |done|);
          return;
        }
      }
    }
  }

  ghost function JobsUpTo(application: Image, library: Image, tables: seq<(u64, nat)>, k: nat): seq<Job>
    requires k <= |tables| == 4
  {
    if k == 0 then []
    else JobsUpTo(application, library, tables, k - 1)
         + TableJobs(if k <= 2 then library else application, tables[k - 1].0, tables[k - 1].1)
  }

  ghost function LinkJobs(application: Image, library: Image, tables: seq<(u64, nat)>): seq<Job>
    requires |tables| == 4
  {
    JobsUpTo(application, library, tables, 4)
  }

  lemma {:induction false} UpToPrefix(application: Image, library: Image, tables: seq<(u64, nat)>, k: nat)
    requires k <= |tables| == 4
    ensures JobsUpTo(application, library, tables, k) <= LinkJobs(application, library, tables)
    decreases 4 - k
  {
    hide TableJobs;
    if k < 4 {
      UpToPrefix(application, library, tables, k + 1);
    }
  }

  lemma {:induction false} RunNothing(mem: Memory, library: Image, jobs: seq<Job>)
    ensures Run(mem, library, jobs[..0]) == (mem, 0)
  {
  }

  lemma {:induction false} Differ(mem: Memory, left: u64, right: u64, limit: nat, index: nat)
    requires index < limit && mem(Add(left, index)) != mem(Add(right, index))
    requires forall k: nat :: k < index ==> mem(Add(left, k)) != 0
    ensures !EqualString(mem, left, right, limit)
  {
    forall n: nat | n < limit ensures !SameString(mem, left, right, n) {
      if n < index {
        assert mem(Add(left, n)) != 0;
      }
    }
  }
}

/**
 What linking leaves in memory, read back byte by byte from the tables as ELF lays them out.
 */
module LinkerSlots {
  import opened Bytes
  import opened Linker
  import LinkerRun

  /** The little-endian number of `n` bytes at `a`. */
  ghost function Num(mem: Memory, a: nat, n: nat): nat {
    FromLe(seq(n, k requires 0 <= k => mem(a + k)))
  }

  lemma {:induction false} UintIs(mem: Memory, a: nat, n: nat)
    ensures Uint(mem, a, n) == Num(mem, a, n)
    decreases n
  {
    if n > 0 {
      UintIs(mem, a + 1, n - 1);
      assert seq(n, k requires 0 <= k => mem(a + k))[1..] == seq(n - 1, k requires 0 <= k => mem(a + 1 + k));
    }
  }

  lemma {:induction false} UintNext(mem: Memory, a: nat, n: nat)
    ensures Uint(mem, a, n + 1) == mem(a) + 256 * Uint(mem, a + 1, n) && Uint(mem, a, 0) == 0
  {
  }

  lemma {:induction false} UintPair(mem: Memory, a: nat, n: nat)
    ensures Uint(mem, a, n + 2) == Uint(mem, a, 2) + 0x1_0000 * Uint(mem, a + 2, n)
  {
    hide Uint;
    UintNext(mem, a, n + 1);
    UintNext(mem, a + 1, n);
    UintNext(mem, a, 1);
    UintNext(mem, a + 1, 0);
    UintNext(mem, a + 2, 0);
  }

  lemma {:induction false} UintSplit(mem: Memory, a: nat)
    ensures Uint(mem, a, 8) == Uint(mem, a, 4) + 0x1_0000_0000 * Uint(mem, a + 4, 4)
  {
    hide Uint;
    UintPair(mem, a, 6);
    UintPair(mem, a + 2, 4);
    UintPair(mem, a, 2);
  }

  lemma {:induction false} SplitWord(low: nat, high: nat)
    requires low < 0x1_0000_0000
    ensures (low + 0x1_0000_0000 * high) % 0x1_0000_0000 == low && (low + 0x1_0000_0000 * high) / 0x1_0000_0000 == high
  {
  }

  /** The type and the symbol of an entry are the halves of its second word. */
  lemma {:induction false} Halves(mem: Memory, a: nat)
    ensures Read8(mem, a) % 0x1_0000_0000 == Num(mem, a, 4) && Read8(mem, a) / 0x1_0000_0000 == Num(mem, a + 4, 4)
  {
    hide Num, Uint;
    UintIs(mem, a, 4);
    UintIs(mem, a + 4, 4);
    Pow256Values();
    UintSplit(mem, a);
    SplitWord(Uint(mem, a, 4), Uint(mem, a + 4, 4));
  }

  // The entry and the tables, by their offsets.

  ghost function Slot(mem: Memory, job: Job): nat {
    (job.image.base + Num(mem, job.rela, 8)) % SPACE
  }

  ghost function Type(mem: Memory, job: Job): nat {
    Num(mem, job.rela + 8, 4)
  }

  ghost function Symbol(mem: Memory, job: Job): nat {
    Num(mem, job.rela + 12, 4)
  }

  ghost function Addend(mem: Memory, job: Job): nat {
    Num(mem, job.rela + 16, 8)
  }

  ghost function NameOffset(mem: Memory, image: Image, i: nat): nat {
    Num(mem, image.symbols + 24 * i, 4)
  }

  /** Program header `i` is a loaded segment with the write flag around the word at `a`. */
  ghost predicate WritableAround(mem: Memory, image: Image, a: nat, i: nat) {
    var header := (image.base + Num(mem, image.base + 32, 8)) % SPACE + 56 * i;
    var start := (image.base + Num(mem, header + 16, 8)) % SPACE;
    && Num(mem, header, 4) == 1
    && Num(mem, header + 4, 4) % 4 >= 2
    && start <= a && a + 8 <= (start + Num(mem, header + 40, 8)) % SPACE
  }

  ghost predicate InWritableSegment(mem: Memory, image: Image, a: nat) {
    a + 8 < SPACE && exists i: nat :: i < Num(mem, image.base + 56, 2) && WritableAround(mem, image, a, i)
  }

  /** The same bytes up to the same first zero. */
  ghost predicate SpelledAlike(mem: Memory, a: nat, b: nat) {
    exists n: nat :: AlikeFor(mem, a, b, n)
  }

  ghost predicate AlikeFor(mem: Memory, a: nat, b: nat, n: nat) {
    ByteAt(mem, a, n) == 0 == ByteAt(mem, b, n) && forall k: nat :: k < n ==> ByteAt(mem, a, k) != 0 && ByteAt(mem, a, k) == ByteAt(mem, b, k)
  }

  ghost function ByteAt(mem: Memory, a: nat, k: nat): byte {
    mem(a + k)
  }

  /** Symbol `i` of the library has a section and that name. */
  ghost predicate DefinedAs(mem: Memory, library: Image, name: nat, i: nat) {
    && Num(mem, library.symbols + 24 * i + 6, 2) != 0
    && NameOffset(mem, library, i) < library.stringBytes
    && SpelledAlike(mem, name, library.strings + NameOffset(mem, library, i))
  }

  ghost predicate FirstDefined(mem: Memory, library: Image, name: nat, i: nat) {
    1 <= i < library.symbolCount && DefinedAs(mem, library, name, i) && forall j :: 1 <= j < i ==> !DefinedAs(mem, library, name, j)
  }

  ghost function Address(mem: Memory, library: Image, i: nat): nat {
    (library.base + Num(mem, library.symbols + 24 * i + 8, 8)) % SPACE
  }

  ghost predicate Symbolic(mem: Memory, job: Job) {
    Type(mem, job) == 1 || Type(mem, job) == 6 || Type(mem, job) == 7
  }

  ghost predicate NamesSymbol(mem: Memory, job: Job) {
    Symbol(mem, job) < job.image.symbolCount && NameOffset(mem, job.image, Symbol(mem, job)) < job.image.stringBytes
  }

  ghost function NameAt(mem: Memory, job: Job): nat {
    job.image.strings + NameOffset(mem, job.image, Symbol(mem, job))
  }

  /** The value an entry asks for. */
  ghost predicate Asks(mem: Memory, library: Image, job: Job, value: nat) {
    || (Type(mem, job) == 8 && value == (job.image.base + Addend(mem, job)) % SPACE)
    || (&& Symbolic(mem, job) && NamesSymbol(mem, job)
        && exists i: nat ::
             && FirstDefined(mem, library, NameAt(mem, job), i)
             && Address(mem, library, i) != 0
             && value == (Address(mem, library, i) + Addend(mem, job)) % SPACE)
  }

  /** What is wrong with an entry, by the code the linker exits with. */
  ghost predicate Fault(mem: Memory, library: Image, job: Job, code: nat) {
    var writable := InWritableSegment(mem, job.image, Slot(mem, job));
    || (code == 84 && !writable)
    || (code == 87 && writable && Type(mem, job) != 8 && !Symbolic(mem, job))
    || (code == 85 && writable && Symbolic(mem, job) && !NamesSymbol(mem, job))
    || (code == 86 && writable && Symbolic(mem, job) && NamesSymbol(mem, job)
        && forall i: nat :: FirstDefined(mem, library, NameAt(mem, job), i) ==> Address(mem, library, i) == 0)
  }

  // The linker's own readings agree.

  lemma {:induction false} SegmentIs(mem: Memory, image: Image, a: u64, i: nat)
    ensures SegmentHolds(mem, image, a, i) <==> WritableAround(mem, image, a, i)
  {
    hide Uint, Num;
    UintIs(mem, image.base + 32, 8);
    var header := Headers(mem, image) + i * PHDR_BYTES;
    UintIs(mem, header, 4);
    UintIs(mem, header + 4, 4);
    UintIs(mem, header + 16, 8);
    UintIs(mem, header + 40, 8);
  }

  lemma {:induction false} WritableIs(mem: Memory, image: Image, a: u64)
    ensures Writable(mem, image, a) <==> InWritableSegment(mem, image, a)
  {
    hide SegmentHolds, WritableAround, Uint, FromLe;
    UintIs(mem, image.base + 56, 2);
    forall i: nat
      ensures SegmentHolds(mem, image, a, i) <==> WritableAround(mem, image, a, i)
    {
      SegmentIs(mem, image, a, i);
    }
  }

  lemma {:induction false} EqualStringIs(t: iset<nat>, mem: Memory, image: Image, offset: nat, library: Image, other: nat)
    requires Tables(t, mem, image) && Tables(t, mem, library) && offset < image.stringBytes && other < library.stringBytes
    ensures EqualString(mem, image.strings + offset, library.strings + other, library.stringBytes - other)
            <==> SpelledAlike(mem, image.strings + offset, library.strings + other)
  {
    hide Headers, HeaderCount, In, SameString, AlikeFor;
    var a, b := image.strings + offset, library.strings + other;
    if EqualString(mem, a, b, library.stringBytes - other) {
      var n: nat :| n < library.stringBytes - other && SameString(mem, a, b, n);
      NameEnds(mem, mem, t, image, offset, b, n);
      SameIsAlike(mem, a, b, n);
    }
    if SpelledAlike(mem, a, b) {
      var n: nat :| AlikeFor(mem, a, b, n);
      AlikeEnds(mem, a, b, n, image.stringBytes - 1 - offset, library.stringBytes - 1 - other);
      SameIsAlike(mem, a, b, n);
    }
  }

  lemma {:induction false} SameIsAlike(mem: Memory, a: nat, b: nat, n: nat)
    requires a + n < SPACE && b + n < SPACE
    ensures SameString(mem, a, b, n) <==> AlikeFor(mem, a, b, n)
  {
    assert forall k: nat :: k <= n ==> ByteAt(mem, a, k) == mem(Add(a, k)) && ByteAt(mem, b, k) == mem(Add(b, k));
  }

  lemma {:induction false} AlikeEnds(mem: Memory, a: nat, b: nat, n: nat, endA: nat, endB: nat)
    requires AlikeFor(mem, a, b, n) && mem(a + endA) == 0 && mem(b + endB) == 0
    ensures n <= endA && n <= endB
  {
    assert ByteAt(mem, a, endA) == 0 && ByteAt(mem, b, endB) == 0;
  }

  lemma {:induction false} MatchesIs(t: iset<nat>, mem: Memory, image: Image, offset: nat, library: Image, i: nat)
    requires Tables(t, mem, image) && Tables(t, mem, library) && offset < image.stringBytes && i < library.symbolCount
    ensures Matches(mem, library, image.strings + offset, i) <==> DefinedAs(mem, library, image.strings + offset, i)
  {
    hide Uint, FromLe, EqualString, SpelledAlike, Headers, HeaderCount, In;
    UintIs(mem, library.symbols + 24 * i, 4);
    UintIs(mem, library.symbols + 24 * i + 6, 2);
    var other := NameOffset(mem, library, i);
    if other < library.stringBytes {
      EqualStringIs(t, mem, image, offset, library, other);
    }
  }

  lemma {:induction false} ResolveIs(t: iset<nat>, mem: Memory, image: Image, offset: nat, library: Image)
    requires Tables(t, mem, image) && Tables(t, mem, library) && offset < image.stringBytes
    ensures image.strings + offset < SPACE
    ensures var value := Resolve(mem, library, image.strings + offset);
            && (value != 0 ==> exists i: nat :: FirstDefined(mem, library, image.strings + offset, i) && value == Address(mem, library, i))
            && (value == 0 ==> forall i: nat :: FirstDefined(mem, library, image.strings + offset, i) ==> Address(mem, library, i) == 0)
  {
    hide Uint, Num, Matches, DefinedAs, Headers, HeaderCount, In;
    var name := image.strings + offset;
    forall i: nat | i < library.symbolCount ensures Matches(mem, library, name, i) <==> DefinedAs(mem, library, name, i) {
      MatchesIs(t, mem, image, offset, library, i);
    }
    var first := FirstMatch(mem, library, name, 1);
    if first.Some? {
      UintIs(mem, library.symbols + 24 * first.value + 8, 8);
      assert FirstDefined(mem, library, name, first.value);
      assert Read8(mem, library.symbols + first.value * SYM_BYTES + 8) == Num(mem, library.symbols + 24 * first.value + 8, 8);
      assert Resolve(mem, library, name) == Address(mem, library, first.value);
    }
    forall i: nat | FirstDefined(mem, library, name, i) ensures first == Some(i) {
      assert Matches(mem, library, name, i);
    }
  }

  lemma {:induction false} EntryIs(mem: Memory, job: Job)
    ensures Add(job.image.base, Read8(mem, job.rela)) == Slot(mem, job)
    ensures Read8(mem, job.rela + 8) % 0x1_0000_0000 == Type(mem, job) && Read8(mem, job.rela + 8) / 0x1_0000_0000 == Symbol(mem, job)
    ensures Read8(mem, job.rela + 16) == Addend(mem, job)
    ensures SymbolName(mem, job.image, Symbol(mem, job)) == NameOffset(mem, job.image, Symbol(mem, job))
  {
    hide Uint, Num;
    UintIs(mem, job.rela, 8);
    Halves(mem, job.rela + 8);
    UintIs(mem, job.rela + 16, 8);
    UintIs(mem, job.image.symbols + 24 * Symbol(mem, job), 4);
  }

  /** What the linker does with an entry: the value it asks for, or its fault. */
  lemma {:induction false} EffectMeans(t: iset<nat>, mem: Memory, library: Image, job: Job)
    requires JobTables(t, mem, job) && Tables(t, mem, library)
    ensures match EffectOf(mem, library, job)
            case Put(target, value) =>
              target == Slot(mem, job) && InWritableSegment(mem, job.image, target) && Asks(mem, library, job, value)
            case Fail(code) => Fault(mem, library, job, code)
  {
    hide Uint, Read8, Writable, Resolve, InWritableSegment, FirstDefined, SymbolName, NameOffset, Slot, Type, Symbol, Addend, Address, In, Headers, HeaderCount;
    EntryIs(mem, job);
    WritableIs(mem, job.image, Add(job.image.base, Read8(mem, job.rela)));
    if NamesSymbol(mem, job) {
      ResolveIs(t, mem, job.image, NameOffset(mem, job.image, Symbol(mem, job)), library);
    }
  }

  lemma {:induction false} HoldsIs(m: Memory, e: Effect)
    requires Holds(m, e)
    ensures Num(m, e.target, 8) == e.value
  {
    hide Le, FromLe;
    Pow256Values();
    LeRoundTrip(e.value, 8);
    var bytes := seq(8, k requires 0 <= k => m(e.target + k));
    assert |Le(e.value, WORD)| == 8 && bytes == Le(e.value, 8);
  }

  /** The entry's slot lies in a writable segment and now holds the value it asked for. */
  ghost predicate Relocated(before: Memory, now: Memory, library: Image, job: Job) {
    InWritableSegment(before, job.image, Slot(before, job)) && Asks(before, library, job, Num(now, Slot(before, job), 8))
  }

  /** After linking with code 0 every slot, read back, holds its image's base plus its addend, or the
      address of the first defined symbol of its name plus its addend. Any other code is that of the
      first faulty entry, and every slot before it holds its value. */
  lemma {:induction false} SlotValues(t: iset<nat>, mem: Memory, library: Image, jobs: seq<Job>)
    requires Linkable(t, mem, library, jobs)
    ensures var (m, code) := Run(mem, library, jobs);
            && (code == 0 ==> forall k :: 0 <= k < |jobs| ==> Relocated(mem, m, library, jobs[k]))
            && (code != 0 ==> exists k :: 0 <= k < |jobs| && Fault(mem, library, jobs[k], code)
                                          && forall j :: 0 <= j < k ==> Relocated(mem, m, library, jobs[j]))
  {
    hide Run, EffectOf, Fault, Asks, InWritableSegment, Tables, JobTables, Holds, Slot, Num;
    var (m, code) := Run(mem, library, jobs);
    var effects := Effects(mem, library, jobs);
    LinkResult(t, mem, library, jobs);
    forall k | 0 <= k < |jobs|
      ensures effects[k].Put? && Holds(m, effects[k]) ==> Relocated(mem, m, library, jobs[k])
      ensures effects[k].Fail? ==> Fault(mem, library, jobs[k], effects[k].code)
    {
      EffectMeans(t, mem, library, jobs[k]);
      if effects[k].Put? && Holds(m, effects[k]) {
        HoldsIs(m, effects[k]);
      }
    }
    if code != 0 {
      var k: nat :| StoppedAt(mem, m, effects, code, k);
      forall j | 0 <= j < k ensures Relocated(mem, m, library, jobs[j]) {
        assert effects[..k][j] == effects[j];
      }
    }
  }

  /** A table's entries are 24 bytes apart. */
  lemma {:induction false} TableEntries(image: Image, table: u64, count: nat, k: nat)
    requires k < count && table + 24 * count <= SPACE
    ensures LinkerRun.TableJobs(image, table, count)[k] == Job(image, table + 24 * k)
  {
  }

  /** The library's two tables come before the application's. */
  lemma {:induction false} TableOrder(application: Image, library: Image, tables: seq<(u64, nat)>)
    requires |tables| == 4
    ensures LinkerRun.LinkJobs(application, library, tables)
         == LinkerRun.TableJobs(library, tables[0].0, tables[0].1) + LinkerRun.TableJobs(library, tables[1].0, tables[1].1)
            + LinkerRun.TableJobs(application, tables[2].0, tables[2].1) + LinkerRun.TableJobs(application, tables[3].0, tables[3].1)
  {
    hide LinkerRun.TableJobs;
    var first := LinkerRun.TableJobs(library, tables[0].0, tables[0].1);
    assert LinkerRun.JobsUpTo(application, library, tables, 0) == [];
    assert LinkerRun.JobsUpTo(application, library, tables, 1) == [] + first == first;
    assert LinkerRun.JobsUpTo(application, library, tables, 3)
        == LinkerRun.JobsUpTo(application, library, tables, 2) + LinkerRun.TableJobs(application, tables[2].0, tables[2].1);
  }
}

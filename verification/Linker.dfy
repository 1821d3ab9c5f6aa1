/**
 The relocations of user/dynamic_linker.c, applied to the memory that also holds the
 ELF headers and tables they are read from.
 */
module Linker {
  import opened Bytes

  const SPACE := 0x1_0000_0000_0000_0000

  type u64 = x: int | 0 <= x < SPACE

  type Memory = nat -> byte

  const PT_LOAD := 1
  const WORD := 8
  const PHDR_BYTES := 56
  const SYM_BYTES := 24
  const RELA_BYTES := 24
  const R_64 := 1
  const R_GLOB_DAT := 6
  const R_JUMP_SLOT := 7
  const R_RELATIVE := 8

  /** Pointer arithmetic wraps. */
  function Add(a: u64, b: nat): (r: u64)
    ensures a + b < SPACE ==> r == a + b
  {
    (a + b) % SPACE
  }

  /** A little-endian field of `n` bytes. */
  function Uint(mem: Memory, a: nat, n: nat): (r: nat)
    ensures r < Pow256(n)
    decreases n
  {
    if n == 0 then 0 else mem(a) + 256 * Uint(mem, a + 1, n - 1)
  }

  function Read8(mem: Memory, a: nat): (r: u64) {
    Pow256Values();
    Uint(mem, a, 8)
  }

  /** What parse_image found, apart from the relocation tables themselves. */
  datatype Image = Image(base: u64, strings: u64, stringBytes: u64, symbols: u64, symbolCount: nat)

  // Reading the tables.

  function Headers(mem: Memory, image: Image): u64 {
    Add(image.base, Read8(mem, image.base + 32))
  }

  function HeaderCount(mem: Memory, image: Image): nat {
    Uint(mem, image.base + 56, 2)
  }

  /** Program header `i` is a writable loaded segment around the word at `address`. */
  predicate SegmentHolds(mem: Memory, image: Image, address: u64, i: nat) {
    var header := Headers(mem, image) + i * PHDR_BYTES;
    var start := Add(image.base, Read8(mem, header + 16));
    && Uint(mem, header, 4) == PT_LOAD
    && Uint(mem, header + 4, 4) / 2 % 2 == 1
    && start <= address
    && address + WORD <= Add(start, Read8(mem, header + 40))
  }

  ghost predicate Writable(mem: Memory, image: Image, address: u64) {
    address + WORD < SPACE && exists i: nat :: i < HeaderCount(mem, image) && SegmentHolds(mem, image, address, i)
  }

  /** Both strings go on alike up to a first zero at `n`. */
  ghost predicate SameString(mem: Memory, left: u64, right: u64, n: nat) {
    && mem(Add(left, n)) == 0
    && (forall k: nat :: k < n ==> mem(Add(left, k)) != 0)
    && (forall k: nat :: k <= n ==> mem(Add(left, k)) == mem(Add(right, k)))
  }

  ghost predicate EqualString(mem: Memory, left: u64, right: u64, limit: nat) {
    exists n: nat :: n < limit && SameString(mem, left, right, n)
  }

  function SymbolName(mem: Memory, image: Image, i: nat): nat {
    Uint(mem, image.symbols + i * SYM_BYTES, 4)
  }

  /** Symbol `i` of the library is defined and has the name at `name`. */
  ghost predicate Matches(mem: Memory, library: Image, name: u64, i: nat) {
    && Uint(mem, library.symbols + i * SYM_BYTES + 6, 2) != 0
    && SymbolName(mem, library, i) < library.stringBytes
    && EqualString(mem, name, Add(library.strings, SymbolName(mem, library, i)), library.stringBytes - SymbolName(mem, library, i))
  }

  ghost function FirstMatch(mem: Memory, library: Image, name: u64, i: nat): (r: Option<nat>)
    ensures r.Some? ==> i <= r.value < library.symbolCount && Matches(mem, library, name, r.value)
    ensures forall k: nat :: i <= k < (if r.Some? then r.value else library.symbolCount) ==> !Matches(mem, library, name, k)
    decreases library.symbolCount - i
  {
    if i >= library.symbolCount then None
    else if Matches(mem, library, name, i) then Some(i)
    else FirstMatch(mem, library, name, i + 1)
  }

  /** The address of the first defined symbol of that name; zero if there is none. */
  ghost function Resolve(mem: Memory, library: Image, name: u64): u64 {
    match FirstMatch(mem, library, name, 1)
    case None => 0
    case Some(i) => Add(library.base, Read8(mem, library.symbols + i * SYM_BYTES + 8))
  }

  // One relocation.

  /** A relocation of an image: where its table entry is. */
  datatype Job = Job(image: Image, rela: u64)

  datatype Effect = Put(target: u64, value: u64) | Fail(code: nat)

  ghost function EffectOf(mem: Memory, library: Image, job: Job): Effect {
    var image := job.image;
    var info, addend := Read8(mem, job.rela + 8), Read8(mem, job.rela + 16);
    var kind, symbol := info % 0x1_0000_0000, info / 0x1_0000_0000;
    var target := Add(image.base, Read8(mem, job.rela));
    if !Writable(mem, image, target) then Fail(84)
    else if kind == R_RELATIVE then Put(target, Add(image.base, addend))
    else if kind == R_64 || kind == R_GLOB_DAT || kind == R_JUMP_SLOT then
      if symbol >= image.symbolCount || SymbolName(mem, image, symbol) >= image.stringBytes then Fail(85)
      else
        var value := Resolve(mem, library, Add(image.strings, SymbolName(mem, image, symbol)));
        if value == 0 then Fail(86) else Put(target, Add(value, addend))
    else Fail(87)
  }

  function Store(mem: Memory, target: u64, value: u64): (r: Memory)
    ensures forall a: nat :: r(a) == if target <= a < target + WORD then Le(value, WORD)[a - target] else mem(a)
  {
    (a: nat) => if target <= a < target + WORD then Le(value, WORD)[a - target] else mem(a)
  }

  /** Relocations one after the other, up to the first that fails. */
  ghost function Run(mem: Memory, library: Image, jobs: seq<Job>): (r: (Memory, nat)) {
    if jobs == [] then (mem, 0)
    else
      var (m, code) := Run(mem, library, jobs[..|jobs| - 1]);
      if code != 0 then (m, code)
      else match EffectOf(m, library, jobs[|jobs| - 1])
        case Put(target, value) => (Store(m, target, value), 0)
        case Fail(c) => (m, c)
  }

  // Stores outside the tables change nothing that is read from them.

  ghost predicate In(t: iset<nat>, lo: nat, n: nat) {
    forall a: nat :: lo <= a < lo + n ==> a in t
  }

  ghost predicate Agree(m: Memory, w: Memory, t: iset<nat>) {
    forall a: nat :: a in t ==> m(a) == w(a)
  }

  /** The headers, symbols and strings of an image lie in `t`; its strings end, as ELF demands. */
  ghost predicate Tables(t: iset<nat>, mem: Memory, image: Image) {
    && image.base + 64 <= SPACE && In(t, image.base, 64)
    && Headers(mem, image) + HeaderCount(mem, image) * PHDR_BYTES <= SPACE
    && In(t, Headers(mem, image), HeaderCount(mem, image) * PHDR_BYTES)
    && image.symbols + image.symbolCount * SYM_BYTES <= SPACE && In(t, image.symbols, image.symbolCount * SYM_BYTES)
    && 0 < image.stringBytes && image.strings + image.stringBytes <= SPACE && In(t, image.strings, image.stringBytes)
    && mem(image.strings + image.stringBytes - 1) == 0
  }

  lemma {:induction false} UintAgree(m: Memory, w: Memory, t: iset<nat>, a: nat, n: nat)
    requires Agree(m, w, t) && In(t, a, n)
    ensures Uint(m, a, n) == Uint(w, a, n)
    decreases n
  {
    if n > 0 {
      UintAgree(m, w, t, a + 1, n - 1);
    }
  }

  lemma {:induction false} HeadersAgree(m: Memory, w: Memory, t: iset<nat>, image: Image)
    requires Agree(m, w, t) && Tables(t, m, image)
    ensures Headers(m, image) == Headers(w, image) && HeaderCount(m, image) == HeaderCount(w, image)
    ensures Tables(t, w, image)
  {
    hide Uint, Add;
    UintAgree(m, w, t, image.base + 32, 8);
    UintAgree(m, w, t, image.base + 56, 2);
  }

  lemma {:induction false} SegmentAgree(m: Memory, w: Memory, t: iset<nat>, image: Image, address: u64, i: nat)
    requires Agree(m, w, t) && Tables(t, m, image) && i < HeaderCount(m, image)
    ensures SegmentHolds(m, image, address, i) == SegmentHolds(w, image, address, i)
  {
    hide Uint, Add, Headers, HeaderCount, Agree;
    HeadersAgree(m, w, t, image);
    var header := Headers(m, image) + i * PHDR_BYTES;
    assert header + PHDR_BYTES <= Headers(m, image) + HeaderCount(m, image) * PHDR_BYTES;
    UintAgree(m, w, t, header, 4);
    UintAgree(m, w, t, header + 4, 4);
    UintAgree(m, w, t, header + 16, 8);
    UintAgree(m, w, t, header + 40, 8);
  }

  lemma {:induction false} WritableAgree(m: Memory, w: Memory, t: iset<nat>, image: Image, address: u64)
    requires Agree(m, w, t) && Tables(t, m, image)
    ensures Writable(m, image, address) == Writable(w, image, address)
  {
    hide SegmentHolds, HeaderCount, Headers, Agree, Tables;
    HeadersAgree(m, w, t, image);
    forall i: nat | i < HeaderCount(m, image) ensures SegmentHolds(m, image, address, i) == SegmentHolds(w, image, address, i) {
      SegmentAgree(m, w, t, image, address, i);
    }
  }

  /** A name in an image's strings ends inside them. */
  lemma {:induction false} NameEnds(m: Memory, w: Memory, t: iset<nat>, image: Image, offset: nat, right: u64, n: nat)
    requires Agree(m, w, t) && Tables(t, m, image) && offset < image.stringBytes
    requires SameString(m, image.strings + offset, right, n)
    ensures offset + n < image.stringBytes
    ensures forall a: nat :: image.strings + offset <= a <= image.strings + offset + n ==> m(a) == w(a)
  {
    hide Headers, HeaderCount;
    var left := image.strings + offset;
    var last := image.stringBytes - 1 - offset;
    assert m(Add(left, last)) == 0;
  }

  lemma {:induction false} SameStringKept(m: Memory, w: Memory, t: iset<nat>, image: Image, offset: nat, right: u64, n: nat)
    requires Agree(m, w, t) && Tables(t, m, image) && offset < image.stringBytes
    requires right + n < SPACE && In(t, right, n + 1)
    requires SameString(m, image.strings + offset, right, n)
    ensures SameString(w, image.strings + offset, right, n)
  {
    hide Headers, HeaderCount;
    NameEnds(m, w, t, image, offset, right, n);
    var left := image.strings + offset;
    forall k: nat | k <= n ensures w(Add(left, k)) == m(Add(left, k)) && w(Add(right, k)) == m(Add(right, k)) {
      assert Add(left, k) == left + k && Add(right, k) == right + k;
    }
  }

  lemma {:induction false} EqualStringAgree(m: Memory, w: Memory, t: iset<nat>, image: Image, offset: nat, right: u64, limit: nat)
    requires Agree(m, w, t) && Tables(t, m, image) && offset < image.stringBytes
    requires right + limit <= SPACE && In(t, right, limit)
    ensures EqualString(m, image.strings + offset, right, limit) == EqualString(w, image.strings + offset, right, limit)
  {
    hide SameString, Headers, HeaderCount;
    HeadersAgree(m, w, t, image);
    if EqualString(m, image.strings + offset, right, limit) {
      var n: nat :| n < limit && SameString(m, image.strings + offset, right, n);
      SameStringKept(m, w, t, image, offset, right, n);
    }
    if EqualString(w, image.strings + offset, right, limit) {
      var n: nat :| n < limit && SameString(w, image.strings + offset, right, n);
      SameStringKept(w, m, t, image, offset, right, n);
    }
  }

  lemma {:induction false} SymbolAgree(m: Memory, w: Memory, t: iset<nat>, image: Image, i: nat)
    requires Agree(m, w, t) && Tables(t, m, image) && i < image.symbolCount
    ensures SymbolName(m, image, i) == SymbolName(w, image, i)
    ensures Uint(m, image.symbols + i * SYM_BYTES + 6, 2) == Uint(w, image.symbols + i * SYM_BYTES + 6, 2)
    ensures Read8(m, image.symbols + i * SYM_BYTES + 8) == Read8(w, image.symbols + i * SYM_BYTES + 8)
  {
    hide Uint, Headers, HeaderCount, Agree;
    var symbol := image.symbols + i * SYM_BYTES;
    UintAgree(m, w, t, symbol, 4);
    UintAgree(m, w, t, symbol + 6, 2);
    UintAgree(m, w, t, symbol + 8, 8);
  }

  lemma {:induction false} MatchesAgree(m: Memory, w: Memory, t: iset<nat>, image: Image, library: Image, offset: nat, i: nat)
    requires Agree(m, w, t) && Tables(t, m, image) && Tables(t, m, library)
    requires offset < image.stringBytes && i < library.symbolCount
    ensures Matches(m, library, image.strings + offset, i) == Matches(w, library, image.strings + offset, i)
  {
    hide Uint, Headers, HeaderCount, Agree, EqualString, SymbolName;
    SymbolAgree(m, w, t, library, i);
    var name := SymbolName(m, library, i);
    if name < library.stringBytes {
      EqualStringAgree(m, w, t, image, offset, library.strings + name, library.stringBytes - name);
    }
  }

  lemma {:induction false} FirstMatchAgree(m: Memory, w: Memory, t: iset<nat>, image: Image, library: Image, offset: nat, i: nat)
    requires Agree(m, w, t) && Tables(t, m, image) && Tables(t, m, library) && offset < image.stringBytes
    ensures image.strings + offset < SPACE
    ensures FirstMatch(m, library, image.strings + offset, i) == FirstMatch(w, library, image.strings + offset, i)
    decreases library.symbolCount - i
  {
    hide Matches, Agree, Headers, HeaderCount;
    if i < library.symbolCount {
      MatchesAgree(m, w, t, image, library, offset, i);
      FirstMatchAgree(m, w, t, image, library, offset, i + 1);
    }
  }

  lemma {:induction false} ResolveAgree(m: Memory, w: Memory, t: iset<nat>, image: Image, library: Image, offset: nat)
    requires Agree(m, w, t) && Tables(t, m, image) && Tables(t, m, library) && offset < image.stringBytes
    ensures image.strings + offset < SPACE
    ensures Resolve(m, library, image.strings + offset) == Resolve(w, library, image.strings + offset)
  {
    hide FirstMatch, Agree, Headers, HeaderCount, Read8;
    FirstMatchAgree(m, w, t, image, library, offset, 1);
    var first := FirstMatch(m, library, image.strings + offset, 1);
    if first.Some? {
      SymbolAgree(m, w, t, library, first.value);
    }
  }

  /** A table entry, and the tables it refers to, lie in `t`. */
  ghost predicate JobTables(t: iset<nat>, mem: Memory, job: Job) {
    job.rela + RELA_BYTES <= SPACE && In(t, job.rela, RELA_BYTES) && Tables(t, mem, job.image)
  }

  lemma {:induction false} EffectAgree(m: Memory, w: Memory, t: iset<nat>, library: Image, job: Job)
    requires Agree(m, w, t) && JobTables(t, m, job) && Tables(t, m, library)
    ensures EffectOf(m, library, job) == EffectOf(w, library, job)
  {
    hide Uint, Agree, Headers, HeaderCount, Writable, Resolve, SymbolName;
    UintAgree(m, w, t, job.rela, 8);
    UintAgree(m, w, t, job.rela + 8, 8);
    UintAgree(m, w, t, job.rela + 16, 8);
    WritableAgree(m, w, t, job.image, Add(job.image.base, Read8(m, job.rela)));
    var symbol := Read8(m, job.rela + 8) / 0x1_0000_0000;
    if symbol < job.image.symbolCount {
      SymbolAgree(m, w, t, job.image, symbol);
      if SymbolName(m, job.image, symbol) < job.image.stringBytes {
        ResolveAgree(m, w, t, job.image, library, SymbolName(m, job.image, symbol));
      }
    }
  }

  // Linking.

  ghost predicate InSlot(e: Effect, a: nat) {
    e.Put? && e.target <= a < e.target + WORD
  }

  ghost predicate Apart(e: Effect, f: Effect) {
    e.Put? && f.Put? ==> e.target + WORD <= f.target || f.target + WORD <= e.target
  }

  /** What the relocations will do, as the tables stand. */
  ghost function Effects(mem: Memory, library: Image, jobs: seq<Job>): (r: seq<Effect>)
    ensures |r| == |jobs|
    ensures forall k :: 0 <= k < |jobs| ==> r[k] == EffectOf(mem, library, jobs[k])
  {
    seq(|jobs|, k requires 0 <= k < |jobs| => EffectOf(mem, library, jobs[k]))
  }

  /** The slots are distinct words away from the headers and tables. */
  ghost predicate Linkable(t: iset<nat>, mem: Memory, library: Image, jobs: seq<Job>) {
    var effects := Effects(mem, library, jobs);
    && Tables(t, mem, library)
    && (forall k :: 0 <= k < |jobs| ==> JobTables(t, mem, jobs[k]))
    && (forall k, a: nat :: 0 <= k < |jobs| && InSlot(effects[k], a) ==> a !in t)
    && (forall j, k :: 0 <= j < k < |jobs| ==> Apart(effects[j], effects[k]))
  }

  ghost predicate Holds(mem: Memory, e: Effect) {
    e.Put? && forall a: nat :: e.target <= a < e.target + WORD ==> mem(a) == Le(e.value, WORD)[a - e.target]
  }

  /** Every slot holds its value and no other byte has changed. */
  ghost predicate Linked(before: Memory, now: Memory, effects: seq<Effect>) {
    && (forall k :: 0 <= k < |effects| ==> Holds(now, effects[k]))
    && (forall a: nat :: now(a) != before(a) ==> exists k :: 0 <= k < |effects| && InSlot(effects[k], a))
  }

  ghost predicate AllPut(effects: seq<Effect>) {
    forall k :: 0 <= k < |effects| ==> effects[k].Put?
  }

  lemma {:induction false} LinkedNext(before: Memory, now: Memory, effects: seq<Effect>, e: Effect)
    requires Linked(before, now, effects) && e.Put?
    requires forall k :: 0 <= k < |effects| ==> Apart(effects[k], e)
    ensures Linked(before, Store(now, e.target, e.value), effects + [e])
  {
    hide Le;
    var next, all := Store(now, e.target, e.value), effects + [e];
    forall k | 0 <= k < |all| ensures Holds(next, all[k]) {
      if k < |effects| {
        assert Apart(effects[k], e) && Holds(now, effects[k]);
      }
    }
    forall a: nat | next(a) != before(a) ensures exists k :: 0 <= k < |all| && InSlot(all[k], a) {
      if InSlot(e, a) {
        assert InSlot(all[|effects|], a);
      } else {
        var k :| 0 <= k < |effects| && InSlot(effects[k], a);
        assert InSlot(all[k], a);
      }
    }
  }

  /** Bytes of no slot are as before. */
  lemma {:induction false} LinkedAgrees(t: iset<nat>, before: Memory, now: Memory, effects: seq<Effect>)
    requires Linked(before, now, effects)
    requires forall k, a: nat :: 0 <= k < |effects| && InSlot(effects[k], a) ==> a !in t
    ensures Agree(before, now, t)
  {
  }

  /** The run stopped at the first relocation that cannot be made, with its code, after making
      those before it. */
  ghost predicate StoppedAt(before: Memory, now: Memory, effects: seq<Effect>, code: nat, k: nat) {
    k < |effects| && effects[k] == Fail(code) && AllPut(effects[..k]) && Linked(before, now, effects[..k])
  }

  lemma {:induction false} RunPrefix(t: iset<nat>, mem: Memory, library: Image, jobs: seq<Job>, n: nat)
    requires Linkable(t, mem, library, jobs) && n <= |jobs|
    ensures var (m, code) := Run(mem, library, jobs[..n]);
            var effects := Effects(mem, library, jobs)[..n];
            && (code == 0 <==> AllPut(effects))
            && (code == 0 ==> Linked(mem, m, effects))
            && (code != 0 ==> exists k: nat :: StoppedAt(mem, m, effects, code, k))
  {
    hide EffectOf, Tables, JobTables, Store;
    var effects := Effects(mem, library, jobs);
    if n > 0 {
      RunPrefix(t, mem, library, jobs, n - 1);
      var prefix, e := effects[..n - 1], effects[n - 1];
      assert jobs[..n][..n - 1] == jobs[..n - 1] && effects[..n] == prefix + [e];
      var (m, code) := Run(mem, library, jobs[..n - 1]);
      assert AllPut(effects[..n]) <==> AllPut(prefix) && e.Put?;
      if code == 0 {
        LinkedAgrees(t, mem, m, prefix);
        EffectAgree(mem, m, t, library, jobs[n - 1]);
        if e.Put? {
          LinkedNext(mem, m, prefix, e);
        } else {
          FailCode(mem, library, jobs[n - 1]);
          assert effects[..n][..n - 1] == prefix;
          assert StoppedAt(mem, m, effects[..n], e.code, n - 1);
        }
      } else {
        var k: nat :| StoppedAt(mem, m, prefix, code, k);
        assert effects[..n][..k] == prefix[..k];
        assert StoppedAt(mem, m, effects[..n], code, k);
      }
    }
  }

  lemma {:induction false} FailCode(mem: Memory, library: Image, job: Job)
    ensures EffectOf(mem, library, job).Fail? ==> EffectOf(mem, library, job).code != 0
    ensures EffectOf(mem, library, job).Put? ==> Writable(mem, job.image, EffectOf(mem, library, job).target)
  {
    hide Writable, Resolve, Uint, Add;
  }

  /** Linking succeeds exactly if every relocation can be made, and then every slot holds base or
      first defined symbol plus addend, every store lies in a writable segment, and no other byte
      of memory has changed. */
  lemma {:induction false} LinkResult(t: iset<nat>, mem: Memory, library: Image, jobs: seq<Job>)
    requires Linkable(t, mem, library, jobs)
    ensures var (m, code) := Run(mem, library, jobs);
            var effects := Effects(mem, library, jobs);
            && (code == 0 <==> AllPut(effects))
            && (code == 0 ==> Linked(mem, m, effects))
            && (code != 0 ==> exists k: nat :: StoppedAt(mem, m, effects, code, k))
    ensures forall k :: 0 <= k < |jobs| && EffectOf(mem, library, jobs[k]).Put? ==>
              Writable(mem, jobs[k].image, EffectOf(mem, library, jobs[k]).target)
  {
    hide EffectOf, Linkable, Run;
    RunPrefix(t, mem, library, jobs, |jobs|);
    assert jobs[..|jobs|] == jobs && Effects(mem, library, jobs)[..|jobs|] == Effects(mem, library, jobs);
    forall k | 0 <= k < |jobs| && EffectOf(mem, library, jobs[k]).Put?
      ensures Writable(mem, jobs[k].image, EffectOf(mem, library, jobs[k]).target)
    {
      FailCode(mem, library, jobs[k]);
    }
  }

  // Order and repetition.

  /** The same effects, in any order, from memories that agree outside their slots. */
  lemma {:induction false} LinkedUnique(before: Memory, m: Memory, w: Memory, effects: seq<Effect>, others: seq<Effect>, a: nat)
    requires Linked(before, m, effects) && Linked(before, w, others)
    requires forall e :: e in effects <==> e in others
    ensures m(a) == w(a)
  {
    hide Le;
    if m(a) != before(a) {
      var k :| 0 <= k < |effects| && InSlot(effects[k], a);
      SlotByte(m, w, effects, others, k, a);
    } else if w(a) != before(a) {
      var k :| 0 <= k < |others| && InSlot(others[k], a);
      SlotByte(w, m, others, effects, k, a);
    }
  }

  lemma {:induction false} SlotByte(m: Memory, w: Memory, effects: seq<Effect>, others: seq<Effect>, k: nat, a: nat)
    requires k < |effects| && InSlot(effects[k], a) && effects[k] in others
    requires Holds(m, effects[k])
    requires forall j :: 0 <= j < |others| ==> Holds(w, others[j])
    ensures m(a) == w(a)
  {
    hide Le;
    var j :| 0 <= j < |others| && others[j] == effects[k];
    assert Holds(w, others[j]);
  }

  lemma {:induction false} SameJobsSameEffects(mem: Memory, library: Image, jobs: seq<Job>, reordered: seq<Job>)
    requires multiset(jobs) == multiset(reordered)
    ensures forall e :: e in Effects(mem, library, jobs) <==> e in Effects(mem, library, reordered)
  {
    hide EffectOf;
    forall e ensures e in Effects(mem, library, jobs) <==> e in Effects(mem, library, reordered) {
      OneWay(mem, library, jobs, reordered, e);
      OneWay(mem, library, reordered, jobs, e);
    }
  }

  lemma {:induction false} OneWay(mem: Memory, library: Image, jobs: seq<Job>, reordered: seq<Job>, e: Effect)
    requires multiset(jobs) == multiset(reordered)
    ensures e in Effects(mem, library, jobs) ==> e in Effects(mem, library, reordered)
  {
    hide EffectOf;
    if e in Effects(mem, library, jobs) {
      var k :| 0 <= k < |jobs| && Effects(mem, library, jobs)[k] == e;
      assert jobs[k] in multiset(reordered);
      var j :| 0 <= j < |reordered| && reordered[j] == jobs[k];
      assert Effects(mem, library, reordered)[j] == e;
    }
  }

  ghost function Without(jobs: seq<Job>, i: nat): seq<Job>
    requires i < |jobs|
  {
    jobs[..i] + jobs[i + 1..]
  }

  lemma {:induction false} WithoutOne(jobs: seq<Job>, i: nat)
    requires i < |jobs|
    ensures multiset(Without(jobs, i)) == multiset(jobs) - multiset{jobs[i]}
  {
    assert jobs == jobs[..i] + [jobs[i]] + jobs[i + 1..];
  }

  /** Two places of a sequence are two places of every reordering of it. */
  lemma {:induction false} TwoPlaces(jobs: seq<Job>, reordered: seq<Job>, j: nat, k: nat) returns (a: nat, b: nat)
    requires multiset(jobs) == multiset(reordered) && j < k < |reordered|
    ensures a < |jobs| && b < |jobs| && a != b && jobs[a] == reordered[j] && jobs[b] == reordered[k]
  {
    var x, y := reordered[j], reordered[k];
    assert x in multiset(jobs);
    a :| 0 <= a < |jobs| && jobs[a] == x;
    var rest, others := Without(jobs, a), Without(reordered, j);
    WithoutOne(jobs, a);
    WithoutOne(reordered, j);
    assert others[k - 1] == y;
    assert y in multiset(rest);
    var c: nat :| c < |rest| && rest[c] == y;
    b := if c < a then c else c + 1;
  }

  lemma {:induction false} ReorderedLinkable(t: iset<nat>, mem: Memory, library: Image, jobs: seq<Job>, reordered: seq<Job>)
    requires Linkable(t, mem, library, jobs) && multiset(jobs) == multiset(reordered)
    ensures Linkable(t, mem, library, reordered)
  {
    hide EffectOf, Tables, JobTables;
    var effects, others := Effects(mem, library, jobs), Effects(mem, library, reordered);
    forall k | 0 <= k < |reordered|
      ensures JobTables(t, mem, reordered[k]) && forall a: nat :: InSlot(others[k], a) ==> a !in t
    {
      assert reordered[k] in multiset(jobs);
      var i :| 0 <= i < |jobs| && jobs[i] == reordered[k];
      assert others[k] == effects[i];
    }
    forall j, k | 0 <= j < k < |reordered| ensures Apart(others[j], others[k]) {
      var a, b := TwoPlaces(jobs, reordered, j, k);
      assert Apart(effects[a], effects[b]) || Apart(effects[b], effects[a]);
    }
  }

  /** The tables may be applied in any order. */
  lemma {:induction false} OrderDoesNotMatter(t: iset<nat>, mem: Memory, library: Image, jobs: seq<Job>, reordered: seq<Job>, a: nat)
    requires Linkable(t, mem, library, jobs) && multiset(jobs) == multiset(reordered)
    ensures Run(mem, library, jobs).1 == 0 <==> Run(mem, library, reordered).1 == 0
    ensures Run(mem, library, jobs).1 == 0 ==> Run(mem, library, jobs).0(a) == Run(mem, library, reordered).0(a)
  {
    hide Linkable, Run, EffectOf, Linked;
    var effects, others := Effects(mem, library, jobs), Effects(mem, library, reordered);
    ReorderedLinkable(t, mem, library, jobs, reordered);
    LinkResult(t, mem, library, jobs);
    LinkResult(t, mem, library, reordered);
    SameJobsSameEffects(mem, library, jobs, reordered);
    assert AllPut(effects) <==> AllPut(others) by {
      assert AllPut(effects) <==> forall e :: e in effects ==> e.Put?;
      assert AllPut(others) <==> forall e :: e in others ==> e.Put?;
    }
    if Run(mem, library, jobs).1 == 0 {
      LinkedUnique(mem, Run(mem, library, jobs).0, Run(mem, library, reordered).0, effects, others, a);
    }
  }

  /** Applying the tables a second time changes nothing. */
  lemma {:induction false} ReapplyingChangesNothing(t: iset<nat>, mem: Memory, library: Image, jobs: seq<Job>, a: nat)
    requires Linkable(t, mem, library, jobs) && Run(mem, library, jobs).1 == 0
    ensures var once := Run(mem, library, jobs).0;
            && Run(once, library, jobs).1 == 0
            && Run(once, library, jobs).0(a) == once(a)
  {
    hide Run, EffectOf, Le, Tables;
    var once, effects := Run(mem, library, jobs).0, Effects(mem, library, jobs);
    LinkResult(t, mem, library, jobs);
    LinkedAgrees(t, mem, once, effects);
    StillLinkable(t, mem, once, library, jobs);
    LinkResult(t, once, library, jobs);
    var twice := Run(once, library, jobs).0;
    if k :| 0 <= k < |effects| && InSlot(effects[k], a) {
      assert Holds(once, effects[k]) && Holds(twice, effects[k]);
    }
  }

  lemma {:induction false} StillLinkable(t: iset<nat>, mem: Memory, once: Memory, library: Image, jobs: seq<Job>)
    requires Linkable(t, mem, library, jobs) && Agree(mem, once, t)
    ensures Effects(once, library, jobs) == Effects(mem, library, jobs)
    ensures Linkable(t, once, library, jobs)
  {
    hide EffectOf, Tables;
    forall k | 0 <= k < |jobs| ensures EffectOf(once, library, jobs[k]) == EffectOf(mem, library, jobs[k]) {
      assert JobTables(t, mem, jobs[k]);
      EffectAgree(mem, once, t, library, jobs[k]);
    }
    assert Effects(once, library, jobs) == Effects(mem, library, jobs);
    HeadersAgree(mem, once, t, library);
    forall k | 0 <= k < |jobs| ensures JobTables(t, once, jobs[k]) {
      assert JobTables(t, mem, jobs[k]);
      HeadersAgree(mem, once, t, jobs[k].image);
    }
  }
}

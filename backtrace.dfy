/** `mon_backtrace` (kern/monitor.c:65-102): the walk along the chain of saved
    frame pointers, one report line per frame, until a frame whose saved-frame-
    pointer word is 0.

    Memory is a map from byte address to the 32-bit word stored there; the
    starting frame pointer (`read_ebp()`) and the symbol resolver
    (`debuginfo_eip`) are parameters. The walk is modelled as written, where
    the return address and arguments are read relative to `*last_ebp`, which
    lags one frame behind `ebp`, and the argument addresses step by
    `size` elements of `uint32_t`; a corrected walk is given beside it. */
module Backtrace {
  import opened Uint32

  /** `sizeof(uint32_t)` (kern/monitor.c:73). */
  const WordSize: int := 4

  /** The number of argument words printed per frame (kern/monitor.c:93). */
  const ArgCount: nat := 5

  /** Memory: the 32-bit word stored at each readable byte address. */
  type Mem = map<int, Word>

  /** A `uint32_t` difference printed with `%d`: wrapped to 32 bits, then read
      as a two's-complement `int`. */
  function SignedDiff(a: int, b: int): (r: int)
    ensures -U32 / 2 <= r < U32 / 2 && (r - (a - b)) % U32 == 0
  {
    Signed32((a - b) % U32)
  }

  /** What `debuginfo_eip` fills in for an address: file, line, function name
      (already cut to `eip_fn_namelen`) and the function's start address. */
  datatype DebugInfo = DebugInfo(file: string, line: int, fnName: string, fnAddr: int)

  /** One frame of the report (kern/monitor.c:93-94). */
  datatype FrameLine = FrameLine(ebp: int, eip: int, args: seq<int>, info: DebugInfo, offset: int)

  /** The frame pointers `fs` are the chain that starts at `ebp0`: each frame's
      saved-frame-pointer word is the next frame, none of them 0, and the last
      frame's word is 0. */
  ghost predicate IsChain(mem: Mem, ebp0: int, fs: seq<int>)
  {
    && |fs| > 0 && fs[0] == ebp0
    && (forall k :: 0 <= k < |fs| ==> fs[k] in mem)
    && (forall k {:trigger mem[fs[k]]} :: 0 <= k < |fs| - 1 ==> mem[fs[k]] == fs[k + 1] && fs[k + 1] != 0)
    && mem[fs[|fs| - 1]] == 0
  }

  // ---------------------------------------------------------------------------
  // The walk as written

  /** `eip = (uint32_t *) (*last_ebp + size)` (kern/monitor.c:84). */
  function ReturnSlot(mem: Mem, last: int): int
    requires last in mem
  {
    Add32(mem[last], WordSize)
  }

  /** `args + j*size` with `args = (uint32_t *) (*last_ebp + 2*size)`
      (kern/monitor.c:85, 93): pointer arithmetic on `uint32_t *`, so the byte
      address moves by `j*size` words, that is `4*j*size` bytes. */
  function ArgSlot(mem: Mem, last: int, j: nat): (a: Word)
    requires last in mem
    ensures a == (mem[last] + 8 + 16 * j) % U32
  {
    var x: int := mem[last];
    var base := Add32(x, 2 * WordSize);
    assert base == x + 8 || base == x + 8 - U32;
    Add32(base, WordSize * (j * WordSize))
  }

  /** Every word one iteration reads through `last_ebp` is readable. */
  ghost predicate SlotsReadable(mem: Mem, last: int)
  {
    && last in mem
    && ReturnSlot(mem, last) in mem
    && forall j :: 0 <= j < ArgCount ==> ArgSlot(mem, last, j) in mem
  }

  /** Every word the whole walk along `fs` reads is readable: each iteration
      reads through the previous frame, and the first through its own. */
  ghost predicate Readable(mem: Mem, fs: seq<int>)
  {
    && |fs| > 0 && SlotsReadable(mem, fs[0])
    && forall k :: 0 <= k < |fs| - 1 ==> SlotsReadable(mem, fs[k])
  }

  /** The value of `last_ebp` while frame `k` is reported: the frame before,
      except in the first iteration where it is the frame itself
      (kern/monitor.c:76, 96). */
  function Lag(k: nat): nat
  {
    if k == 0 then 0 else k - 1
  }

  /** The line printed for frame `ebp` when `last_ebp` is `last`. */
  function EmitLine(mem: Mem, resolve: int -> DebugInfo, ebp: int, last: int): (r: FrameLine)
    requires SlotsReadable(mem, last)
    ensures r.ebp == ebp && |r.args| == ArgCount
    ensures r.eip == mem[(mem[last] + 4) % U32]
    ensures forall j :: 0 <= j < ArgCount ==> r.args[j] == mem[ArgSlot(mem, last, j)]
    ensures r.info == resolve(r.eip) && r.offset == SignedDiff(r.eip, r.info.fnAddr)
  {
    var eip := mem[ReturnSlot(mem, last)];
    var info := resolve(eip);
    var args := seq(ArgCount, j requires 0 <= j < ArgCount => mem[ArgSlot(mem, last, j)]);
    FrameLine(ebp, eip, args, info, SignedDiff(eip, info.fnAddr))
  }

  /** One iteration's reads and lookup (kern/monitor.c:84-94): the return
      address and the five argument words through `last`, and the symbol of
      the return address. */
  method ReadFrame(mem: Mem, resolve: int -> DebugInfo, ebp: int, last: int) returns (line: FrameLine)
    requires SlotsReadable(mem, last)
    ensures line == EmitLine(mem, resolve, ebp, last)
  {
    var eip := ReturnSlot(mem, last);
    var info := resolve(mem[eip]);
    var words := seq(ArgCount, j requires 0 <= j < ArgCount => mem[ArgSlot(mem, last, j)]);
    line := FrameLine(ebp, mem[eip], words, info, SignedDiff(mem[eip], info.fnAddr));
  }

  /** `mon_backtrace` (kern/monitor.c:65-102) from frame pointer `ebp0` along
      the chain `fs`: one line per frame, the resolver asked once per frame,
      and the walk stops right after the frame whose saved word is 0. */
  method Walk(mem: Mem, resolve: int -> DebugInfo, ebp0: Word, ghost fs: seq<int>)
    returns (lines: seq<FrameLine>, status: int)
    requires IsChain(mem, ebp0, fs) && Readable(mem, fs)
    ensures |lines| == |fs| && status == 0
    ensures forall k :: 0 <= k < |fs| ==> lines[k] == EmitLine(mem, resolve, fs[k], fs[Lag(k)])
  {
    var ebp := ebp0;
    var last := ebp;
    lines := [];
    ghost var k: nat := 0;
    while true
      invariant k < |fs| && ebp == fs[k] && last == fs[Lag(k)]
      invariant |lines| == k
      invariant forall i :: 0 <= i < k ==> lines[i] == EmitLine(mem, resolve, fs[i], fs[Lag(i)])
      decreases |fs| - k
    {
      assert SlotsReadable(mem, last);
      var line := ReadFrame(mem, resolve, ebp, last);
      lines := lines + [line];
      last := ebp;
      if mem[ebp] == 0 {
        break;
      }
      ebp := mem[ebp];
      k := k + 1;
    }
    status := 0;
  }

  /** The number of frames reported is fixed by memory and the starting frame
      pointer: the chain is unique. */
  lemma {:induction false} ChainIsUnique(mem: Mem, ebp0: int, fs: seq<int>, gs: seq<int>)
    requires IsChain(mem, ebp0, fs) && IsChain(mem, ebp0, gs)
    ensures fs == gs
  {
    var n := if |fs| < |gs| then |fs| else |gs|;
    forall k | 0 <= k < n ensures fs[k] == gs[k] {
      ChainsAgree(mem, ebp0, fs, gs, k);
    }
    assert fs[n - 1] == gs[n - 1];
    if |fs| != |gs| {
      assert false;
    }
  }

  /** Two chains from one frame pointer agree frame by frame. */
  lemma {:induction false} ChainsAgree(mem: Mem, ebp0: int, fs: seq<int>, gs: seq<int>, k: nat)
    requires IsChain(mem, ebp0, fs) && IsChain(mem, ebp0, gs)
    requires k < |fs| && k < |gs|
    ensures fs[k] == gs[k]
  {
    if k > 0 {
      ChainsAgree(mem, ebp0, fs, gs, k - 1);
    }
  }

  /** Because `last_ebp` starts equal to `ebp`, the first two lines read the
      same return-address slot `*ebp0 + 4` and the same argument words: the
      first line repeats its caller's return address and arguments
      (kern/monitor.c:76, 84-85, 96-98). */
  lemma FirstTwoLinesAgree(mem: Mem, resolve: int -> DebugInfo, fs: seq<int>, lines: seq<FrameLine>)
    requires |fs| >= 2 && IsChain(mem, fs[0], fs) && Readable(mem, fs)
    requires |lines| == |fs|
    requires forall k :: 0 <= k < |fs| ==> lines[k] == EmitLine(mem, resolve, fs[k], fs[Lag(k)])
    ensures lines[0].ebp == fs[0] && lines[1].ebp == fs[1]
    ensures Add32(fs[1], WordSize) in mem && lines[0].eip == lines[1].eip == mem[Add32(fs[1], WordSize)]
    ensures lines[0].args == lines[1].args
  {
    assert lines[0] == EmitLine(mem, resolve, fs[0], fs[Lag(0)]);
    assert lines[1] == EmitLine(mem, resolve, fs[1], fs[Lag(1)]);
    assert Lag(0) == Lag(1) == 0;
    assert mem[fs[0]] == fs[1];
  }

  // ---------------------------------------------------------------------------
  // The walk as evidently intended: each line from its own frame, with the
  // arguments in the consecutive words above the return address

  /** The word `ebp[i]`: `i` words above the frame pointer. */
  function FrameSlot(ebp: int, i: nat): int
  {
    Add32(ebp, WordSize * i)
  }

  /** Every word the intended line for frame `ebp` reads is readable. */
  ghost predicate OwnSlotsReadable(mem: Mem, ebp: int)
  {
    forall i :: 0 <= i <= ArgCount + 1 ==> FrameSlot(ebp, i) in mem
  }

  /** The intended line for frame `ebp`: return address `ebp[1]`, arguments
      `ebp[2]` to `ebp[6]`. */
  function IntendedLine(mem: Mem, resolve: int -> DebugInfo, ebp: int): (r: FrameLine)
    requires OwnSlotsReadable(mem, ebp)
    ensures r.ebp == ebp && |r.args| == ArgCount
    ensures r.eip == mem[FrameSlot(ebp, 1)]
    ensures forall j :: 0 <= j < ArgCount ==> r.args[j] == mem[FrameSlot(ebp, j + 2)]
    ensures r.info == resolve(r.eip) && r.offset == SignedDiff(r.eip, r.info.fnAddr)
  {
    var eip := mem[FrameSlot(ebp, 1)];
    var info := resolve(eip);
    var args := seq(ArgCount, j requires 0 <= j < ArgCount => mem[FrameSlot(ebp, j + 2)]);
    FrameLine(ebp, eip, args, info, SignedDiff(eip, info.fnAddr))
  }

  /** The corrected walk: the same loop without `last_ebp`, reading each
      frame's own words, with the arguments one word apart. */
  method WalkIntended(mem: Mem, resolve: int -> DebugInfo, ebp0: Word, ghost fs: seq<int>)
    returns (lines: seq<FrameLine>)
    requires IsChain(mem, ebp0, fs)
    requires forall k :: 0 <= k < |fs| ==> OwnSlotsReadable(mem, fs[k])
    ensures |lines| == |fs|
    ensures forall k :: 0 <= k < |fs| ==> lines[k] == IntendedLine(mem, resolve, fs[k])
  {
    var ebp := ebp0;
    lines := [];
    ghost var k: nat := 0;
    while true
      invariant k < |fs| && ebp == fs[k] && |lines| == k
      invariant forall i :: 0 <= i < k ==> lines[i] == IntendedLine(mem, resolve, fs[i])
      decreases |fs| - k
    {
      assert OwnSlotsReadable(mem, ebp);
      var eip := mem[FrameSlot(ebp, 1)];
      var info := resolve(eip);
      var words := seq(ArgCount, j requires 0 <= j < ArgCount => mem[FrameSlot(ebp, j + 2)]);
      lines := lines + [FrameLine(ebp, eip, words, info, SignedDiff(eip, info.fnAddr))];
      if mem[ebp] == 0 {
        break;
      }
      ebp := mem[ebp];
      k := k + 1;
    }
  }

  /** From the second frame on, the line as written and the intended line agree
      on the frame, the return address, the symbol and the first argument; the
      written line's later arguments lie `4*j*4` bytes above the first instead
      of `4*j`. */
  lemma AsWrittenAgreesFromSecondFrame(mem: Mem, resolve: int -> DebugInfo, fs: seq<int>, k: nat)
    requires 1 <= k < |fs| && IsChain(mem, fs[0], fs) && Readable(mem, fs)
    requires OwnSlotsReadable(mem, fs[k])
    ensures var w := EmitLine(mem, resolve, fs[k], fs[Lag(k)]);
      var r := IntendedLine(mem, resolve, fs[k]);
      && w.ebp == r.ebp && w.eip == r.eip && w.info == r.info && w.offset == r.offset
      && w.args[0] == r.args[0]
      && forall j :: 0 <= j < ArgCount ==>
           Add32(FrameSlot(fs[k], 2), 16 * j) in mem && w.args[j] == mem[Add32(FrameSlot(fs[k], 2), 16 * j)]
  {
    assert mem[fs[k - 1]] == fs[k];
    assert SlotsReadable(mem, fs[k - 1]);
    var base := FrameSlot(fs[k], 2);
    forall j | 0 <= j < ArgCount ensures ArgSlot(mem, fs[k - 1], j) == Add32(base, 16 * j) {
      assert WordSize * (j * WordSize) == 16 * j;
    }
    assert Add32(base, 16 * 0) == base;
  }

  /** A two-frame stack on which the first line shows the wrong return
      address and the second line the wrong second argument. */
  function SampleStack(): Mem
  {
    map[
      0x100 := 0x200,  // frame 0x100 was called from frame 0x200
      0x104 := 0xAAA,  // frame 0x100's return address
      0x108 := 0, 0x10C := 0, 0x110 := 0, 0x114 := 0, 0x118 := 0,
      0x200 := 0,      // frame 0x200 is the outermost
      0x204 := 0xBBB,  // frame 0x200's return address
      0x208 := 0,
      0x20C := 1,      // frame 0x200's second argument
      0x210 := 0, 0x214 := 0,
      0x218 := 2,      // a word further up frame 0x200
      0x228 := 0, 0x238 := 0, 0x248 := 0
    ]
  }

  /** The sample stack holds the two-frame chain 0x100, 0x200. */
  lemma SampleStackIsChain()
    ensures IsChain(SampleStack(), 0x100, [0x100, 0x200])
  {
    var mem := SampleStack();
    assert mem[0x100] == 0x200 && mem[0x200] == 0;
  }

  /** Every word either walk reads on the sample stack is present. */
  lemma SampleStackReadable()
    ensures Readable(SampleStack(), [0x100, 0x200])
    ensures OwnSlotsReadable(SampleStack(), 0x100) && OwnSlotsReadable(SampleStack(), 0x200)
  {
    var mem := SampleStack();
    assert mem[0x100] == 0x200;
    forall j | 0 <= j < ArgCount ensures ArgSlot(mem, 0x100, j) in mem {
      if j == 0 { assert 0x208 in mem; }
      else if j == 1 { assert 0x218 in mem; }
      else if j == 2 { assert 0x228 in mem; }
      else if j == 3 { assert 0x238 in mem; }
      else { assert 0x248 in mem; }
    }
  }

  /** On the sample stack the first line reports the caller's return address
      0xBBB where frame 0x100's own is 0xAAA, and the second line reports the
      word at 0x218 as the second argument of frame 0x200 instead of the word
      at 0x20C. */
  lemma SampleStackDiscrepancies(resolve: int -> DebugInfo)
    ensures IsChain(SampleStack(), 0x100, [0x100, 0x200])
    ensures Readable(SampleStack(), [0x100, 0x200])
    ensures OwnSlotsReadable(SampleStack(), 0x100) && OwnSlotsReadable(SampleStack(), 0x200)
    ensures EmitLine(SampleStack(), resolve, 0x100, 0x100).eip == 0xBBB
    ensures IntendedLine(SampleStack(), resolve, 0x100).eip == 0xAAA
    ensures EmitLine(SampleStack(), resolve, 0x200, 0x100).args[1] == 2
    ensures IntendedLine(SampleStack(), resolve, 0x200).args[1] == 1
  {
    SampleStackIsChain();
    SampleStackReadable();
    var mem := SampleStack();
    assert mem[0x100] == 0x200;
    assert mem[0x204] == 0xBBB && mem[0x218] == 2 && mem[0x104] == 0xAAA && mem[0x20C] == 1;
  }
}

/** Physical memory as page frames of 512 words, and the direct window through which the kernel
    reads and writes it by physical address. */
module Memory {
  import opened Bits

  datatype Option<+T> = None | Some(value: T)

  /** The number of cores the kernel is built for. */
  const MAX_CORE: nat := 32

  const PAGE_SIZE: int := 0x1000
  const FRAME_WORDS: int := 512

  /** Start of the window the bootloader maps onto the lowest 2 GiB of physical memory. */
  const WINDOW: int := 0xffff_ffff_8000_0000
  const WINDOW_SIZE: int := 0x8000_0000

  type Frame = f: seq<Word> | |f| == FRAME_WORDS witness seq(512, _ => 0)
  type Ram = seq<Frame>

  predicate Zeroed(f: Frame) {
    forall k | 0 <= k < FRAME_WORDS :: f[k] == 0
  }

  /** `physical_to_stivale`, with the wrap-around of 64-bit addition. */
  function PhysicalToWindow(pa: Word): Word {
    (pa + WINDOW) % WORD_LIMIT
  }

  /** The window address `va` designates a word of memory. */
  predicate InWindow(ram: Ram, va: Word) {
    va >= WINDOW && va % 8 == 0 && (va - WINDOW) / PAGE_SIZE < |ram|
  }

  function StoreWord(ram: Ram, f: nat, k: nat, w: Word): (r: Ram)
    requires f < |ram| && k < FRAME_WORDS
    ensures |r| == |ram| && r[f][k] == w
    ensures forall g | 0 <= g < |ram| && g != f :: r[g] == ram[g]
    ensures forall j | 0 <= j < FRAME_WORDS && j != k :: r[f][j] == ram[f][j]
  {
    ram[f := ram[f][k := w]]
  }

  class PhysicalMemory {
    var frames: Ram

    constructor (initial: Ram)
      ensures frames == initial
    {
      frames := initial;
    }

    method Read(va: Word) returns (w: Word)
      requires InWindow(frames, va)
      ensures w == frames[(va - WINDOW) / PAGE_SIZE][(va - WINDOW) % PAGE_SIZE / 8]
    {
      w := frames[(va - WINDOW) / PAGE_SIZE][(va - WINDOW) % PAGE_SIZE / 8];
    }

    method Write(va: Word, w: Word)
      requires InWindow(frames, va)
      modifies this
      ensures frames == StoreWord(old(frames), (va - WINDOW) / PAGE_SIZE, (va - WINDOW) % PAGE_SIZE / 8, w)
    {
      frames := StoreWord(frames, (va - WINDOW) / PAGE_SIZE, (va - WINDOW) % PAGE_SIZE / 8, w);
    }
  }
}

/** SHA-256 on the accelerator: linux/versatCrypto.c (streaming through a shared buffer) and versat_crypto.c (one-shot).
    The hardware assumption: each run compresses the block loaded by the run before and loads a block. */
module VersatSha {
  import opened Bits
  import opened Chunks
  import opened Sort
  import opened Transpose
  import opened ShaPadding

  // ---------- the accelerator ----------

  class ShaUnit {
    const S: Sha

    // the State registers, the block in the read unit, and the driver's flag that the registers have been initialised
    var state: seq<nat>
    var loaded: seq<int>
    var started: bool

    // the blocks handed to the unit since the last start
    ghost var absorbed: seq<int>

    ghost predicate Valid()
      reads this
    {
      && EightWords(S) && |state| == 8 && |absorbed| % 64 == 0
      && (absorbed == [] ==> !started)
      && (absorbed != [] ==> started && Pending())
    }

    /** The last block is loaded but not yet compressed. */
    ghost predicate Pending()
      reads this
    {
      |absorbed| >= 64 && (|absorbed| - 64) % 64 == 0
      && loaded == absorbed[|absorbed| - 64..] && state == Fold(S, absorbed[..|absorbed| - 64])
    }

    /** At reset the registers hold anything. */
    constructor (S: Sha, registers: seq<nat>, junk: seq<int>)
      requires EightWords(S) && |registers| == 8
      ensures Valid() && absorbed == [] && this.S == S
    {
      this.S := S;
      state, loaded, started, absorbed := registers, junk, false, [];
    }

    /** RunAccelerator(1), with MemRead.ext_addr at byte addr. */
    method RunAccelerator(mem: array<int>, addr: nat)
      requires EightWords(S) && |state| == 8 && addr + 64 <= mem.Length
      modifies this`state, this`loaded
      ensures state == S.compress(old(state), old(loaded)) && |state| == 8
      ensures loaded == mem[addr..addr + 64]
    {
      state, loaded := S.compress(state, loaded), mem[addr..addr + 64];
    }

    /** One round of versat_crypto_hashblocks_sha256: the first run compresses junk, which the initial value
        replaces. */
    method HashBlock(mem: array<int>, addr: nat)
      requires Valid() && addr + 64 <= mem.Length
      modifies this
      ensures Valid() && absorbed == old(absorbed) + mem[addr..addr + 64]
    {
      hide Fold;
      ghost var b, M := mem[addr..addr + 64], absorbed;
      RunAccelerator(mem, addr);
      if !started {
        state := S.iv;
        started := true;
        FoldNone(S);
        assert M + b == b;
        assert b[..0] == [];
      } else {
        FoldStep(S, M[..|M| - 64], M[|M| - 64..]);
        assert M[..|M| - 64] + M[|M| - 64..] == M;
      }
      absorbed := M + b;
      assert absorbed[|absorbed| - 64..] == b;
      assert absorbed[..|absorbed| - 64] == M;
    }

    /** versat_crypto_hashblocks_sha256 */
    method HashBlocks(mem: array<int>, off: nat, len: nat) returns (left: nat)
      requires Valid() && off + len <= mem.Length
      modifies this
      ensures left == len % 64 && Valid() && absorbed == old(absorbed) + mem[off..off + (len - left)]
    {
      hide Valid, Fold;
      var done := 0;
      left := len;
      assert absorbed + mem[off..off + 0] == absorbed;
      while left >= 64
        invariant done + left == len && done % 64 == 0
        invariant Valid() && absorbed == old(absorbed) + mem[off..off + done]
      {
        HashBlock(mem, off + done);
        assert mem[off..off + done] + mem[off + done..off + done + 64] == mem[off..off + (done + 64)];
        done := done + 64;
        left := left - 64;
      }
    }

    /** The last run compresses the pending block; whatever it loads is not used. */
    method Flush(mem: array<int>, addr: nat)
      requires Valid() && absorbed != [] && addr + 64 <= mem.Length
      modifies this`state, this`loaded
      ensures |state| == 8 && state == Fold(S, absorbed)
    {
      hide Fold;
      ghost var M := absorbed;
      RunAccelerator(mem, addr);
      FoldStep(S, M[..|M| - 64], M[|M| - 64..]);
      assert M[..|M| - 64] + M[|M| - 64..] == M;
    }

    /** The flag is cleared: the next block starts a new message. */
    method Restart()
      requires EightWords(S) && |state| == 8
      modifies this`started, this`absorbed
      ensures Valid() && absorbed == []
    {
      started := false;
      absorbed := [];
    }
  }

  // ---------- one-shot: VersatSHA ----------

  /** VersatSHA: the hash of the inlen bytes at the start of input. */
  method OneShot(unit: ShaUnit, input: array<int>, size: nat) returns (out: seq<int>)
    requires unit.Valid() && unit.absorbed == [] && input.Length == size < U64
    modifies unit
    ensures unit.Valid() && unit.absorbed == [] && out == Hash(unit.S, input[..])
  {
    hide Fold, Pad, LengthField, Tail, Digest, ShaUnit.Valid;
    UnitParts(unit);
    var bytes := size;
    var left := unit.HashBlocks(input, 0, size);
    var padded := new int[128](_ => 0);
    ghost var full, rest := input[0..0 + (size - left)], input[size - left..size];
    assert unit.absorbed == full && full + rest == input[..];
    CopyRest(padded, input, size - left, left);
    assert padded[0..0 + left] == rest;
    PadInPlace(padded, 0, left, bytes);
    PadIsTail(full, rest);
    var none := unit.HashBlocks(padded, 0, PaddedSize(left));
    unit.Flush(padded, 0);
    out := Digest(unit.state);
    unit.Restart();
  }

  lemma UnitParts(unit: ShaUnit)
    requires unit.Valid()
    ensures EightWords(unit.S) && |unit.state| == 8 && |unit.absorbed| % 64 == 0
  {
  }

  // ---------- streaming: BeginSHA, ProcessSHA, EndSHA ----------

  class ShaStream {
    const unit: ShaUnit

    // the physical buffer, its size as seen by the user, and the interface record (mem as an offset)
    const buffer: array<int>
    const capacity: nat
    var mem: int
    var size: int
    var maxSize: int

    // a C int
    var bytesProcessed: int

    // everything handed to ProcessSHA since BeginSHA
    ghost var message: seq<int>

    /** Between calls: fewer than 64 bytes are hidden at the start of the buffer, and they are the part of the message
        that the unit has not taken. */
    ghost predicate Ready()
      reads this, unit, buffer
    {
      && unit.Valid() && capacity <= buffer.Length < 0x8000_0000 && buffer.Length >= 128
      && 0 <= mem < 64 && mem <= capacity && size == 0 && maxSize == capacity - mem
      && bytesProcessed == ToS32(|unit.absorbed|)
      && message == unit.absorbed + buffer[..mem]
    }

    /** The user has copied data to the buffer and set the size. */
    ghost predicate Filled(data: seq<int>)
      reads this, unit, buffer
    {
      && unit.Valid() && capacity <= buffer.Length < 0x8000_0000 && buffer.Length >= 128
      && 0 <= mem < 64 && maxSize == capacity - mem && 0 <= size <= maxSize
      && bytesProcessed == ToS32(|unit.absorbed|)
      && message == unit.absorbed + buffer[..mem]
      && data == buffer[mem..mem + size]
    }

    /** InitVersat allocates the buffers (of at least 4096 bytes) and BeginSHA reserves one. */
    constructor (unit: ShaUnit, buffer: array<int>, capacity: nat)
      requires EightWords(unit.S) && |unit.state| == 8
      requires capacity <= buffer.Length < 0x8000_0000 && buffer.Length >= 4096
      modifies unit`started, unit`absorbed
      ensures Ready() && message == [] && this.unit == unit && this.buffer == buffer && this.capacity == capacity
    {
      this.unit, this.buffer, this.capacity := unit, buffer, capacity;
      mem, size, maxSize, bytesProcessed, message := 0, 0, capacity, 0, [];
      new;
      unit.Restart();
    }

    /** HideDataVersatBuffer */
    method Hide()
      modifies this`mem, this`maxSize, this`size
      ensures mem == old(mem + size) && maxSize == old(maxSize - size) && size == 0
    {
      mem := mem + size;
      maxSize := maxSize - size;
      size := 0;
    }

    /** NormalizeVersatBuffer */
    method Normalize()
      modifies this`mem, this`maxSize, this`size
      ensures mem == 0 && size == old(size + mem) && maxSize == capacity
    {
      var delta := mem;
      mem := 0;
      size := size + delta;
      maxSize := capacity;
    }

    /** What a user does between two calls: put at most maxSize bytes behind mem. */
    method Fill(data: seq<int>)
      requires Ready() && |data| <= maxSize
      modifies buffer, this`size
      ensures Filled(data) && message == old(message)
    {
      ghost var hidden := buffer[..mem];
      for i := 0 to |data|
        invariant buffer[..mem] == hidden
        invariant forall k :: 0 <= k < i ==> buffer[mem + k] == data[k]
      {
        buffer[mem + i] := data[i];
      }
      size := |data|;
      assert buffer[mem..mem + size] == data;
    }

    /** memcpy of the left bytes to the start of the buffer. */
    method MoveDown(from: nat, left: nat)
      requires from + left <= buffer.Length && (left <= from || from == 0)
      modifies buffer
      ensures buffer[..left] == old(buffer[from..from + left])
    {
      for i := 0 to left
        invariant forall k :: 0 <= k < i ==> buffer[k] == old(buffer[from + k])
        invariant forall k :: from + i <= k < from + left ==> buffer[k] == old(buffer[k])
      {
        buffer[i] := buffer[from + i];
      }
    }

    /** The blocks at the start of the buffer. */
    method HashFull(numberBlocks: nat)
      requires unit.Valid() && mem == 0 && numberBlocks * 64 <= buffer.Length
      modifies unit
      ensures unit.Valid() && unit.absorbed == old(unit.absorbed) + buffer[..numberBlocks * 64]
    {
      hide Fold, ShaUnit.Valid;
      var none := unit.HashBlocks(buffer, mem, numberBlocks * 64);
      assert buffer[0..0 + (numberBlocks * 64 - none)] == buffer[..numberBlocks * 64];
    }

    /** ProcessSHA: hashes the full blocks of the hidden bytes and the data, and hides what is left. */
    method ProcessSHA(ghost data: seq<int>)
      requires Filled(data)
      modifies this, unit, buffer
      ensures Ready() && message == old(message) + data
    {
      hide Fold, ShaUnit.Valid, Sort.ToS32;
      ghost var before, b, m := unit.absorbed, buffer[..], mem;
      Normalize();
      var numberBlocks := size / 64;
      HashFull(numberBlocks);
      var amountProcessed := numberBlocks * 64;
      var amountLeft := size - amountProcessed;
      Regroup(before, b, m, data, amountProcessed, amountLeft);
      size := amountLeft;
      KeepRest(b, amountProcessed, amountLeft);
      message := message + data;
      Wrap(|before|, amountProcessed);
      bytesProcessed := ToS32(bytesProcessed + amountProcessed);
      Hide();
    }

    /** The branch of ProcessSHA that moves the rest to the start of the buffer and hides it. */
    method KeepRest(ghost b: seq<int>, from: nat, left: nat)
      requires b == buffer[..] && from + left <= buffer.Length && left < 64 && (from >= 64 || from == 0)
      requires mem == 0 && size == left && maxSize == capacity
      modifies this`mem, this`maxSize, this`size, buffer
      ensures mem == left && maxSize == capacity - left && size == 0 && buffer[..left] == b[from..from + left]
    {
      if left != 0 {
        MoveDown(from, left);
        Hide();
      }
    }

    /** EndSHA: the length field is taken from the wrapped counter of processed bytes. */
    method EndSHA(ghost data: seq<int>) returns (digest: seq<int>)
      requires Filled(data)
      modifies this, unit, buffer
      ensures message == old(message) + data
      ensures EightWords(unit.S) && digest == CountedHash(unit.S, message)
    {
      hide Fold, ShaUnit.Valid, Tail, LengthField, Digest, Pad, Full, Left;
      ProcessSHA(data);
      UnitParts(unit);
      ghost var full := unit.absorbed;
      SplitMessage(message, full, buffer[..mem]);
      Normalize();
      digest := Finish(full);
    }

    /** The rest of EndSHA, with fewer than 64 bytes in the buffer. */
    method Finish(ghost full: seq<int>) returns (digest: seq<int>)
      requires unit.Valid() && unit.absorbed == full && buffer.Length >= 128
      requires mem == 0 && 0 <= size < 64 && bytesProcessed == ToS32(|full|)
      modifies unit, buffer
      ensures EightWords(unit.S) && |full| % 64 == 0
      ensures digest == BlocksHash(unit.S, full, CountedTail(|full|, old(buffer[..size])))
    {
      hide Fold, ShaUnit.Valid, Tail, LengthField, Digest, Pad;
      UnitParts(unit);
      var inlen := size;
      var bytes := (bytesProcessed % U64 + inlen) % U64;
      var same := unit.HashBlocks(buffer, 0, inlen);
      assert unit.absorbed == full by {
        assert buffer[0..0 + (inlen - same)] == [];
      }
      ghost var rest := buffer[0..0 + inlen];
      assert rest == old(buffer[..size]);
      PadInPlace(buffer, 0, inlen, bytes);
      var none := unit.HashBlocks(buffer, 0, PaddedSize(inlen));
      unit.Flush(buffer, 0);
      digest := Digest(unit.state);
    }
  }

  lemma Regroup(before: seq<int>, b: seq<int>, m: nat, data: seq<int>, n: nat, left: nat)
    requires m + |data| == n + left <= |b| && data == b[m..m + |data|]
    ensures before + b[..m] + data == before + b[..n] + b[n..n + left]
  {
    assert b[..m] + data == b[..n + left] == b[..n] + b[n..n + left];
  }

  // ---------- what EndSHA computes ----------

  /** The full blocks of a message, and what is left. */
  function Full(M: seq<int>): (f: seq<int>)
    ensures |f| % 64 == 0
  {
    M[..|M| - |M| % 64]
  }

  function Left(M: seq<int>): (r: seq<int>)
    ensures |r| == |M| % 64
  {
    M[|M| - |M| % 64..]
  }

  /** The last blocks, with the length field that EndSHA writes after p bytes in full blocks. */
  function CountedTail(p: nat, rest: seq<int>): (t: seq<int>)
    requires |rest| < 64
    ensures |t| == PaddedSize(|rest|) && |t| % 64 == 0
  {
    Tail(rest, LengthField(CountedBytes(p, |rest|)))
  }

  function CountedPad(M: seq<int>): (r: seq<int>) {
    Full(M) + CountedTail(|Full(M)|, Left(M))
  }

  ghost function BlocksHash(S: Sha, full: seq<int>, tail: seq<int>): (d: seq<int>)
    requires EightWords(S) && |full| % 64 == 0 && |tail| % 64 == 0
  {
    WholeSum(|full|, |tail|);
    Digest(Fold(S, full + tail))
  }

  ghost function CountedHash(S: Sha, M: seq<int>): (d: seq<int>)
    requires EightWords(S)
  {
    BlocksHash(S, Full(M), CountedTail(|Full(M)|, Left(M)))
  }

  /** After p bytes in full blocks the C int counter still tells the length in bits modulo 2^64. */
  predicate CounterRight(p: nat) {
    p % BYTES_END < 0x8000_0000 || p % BYTES_END >= BYTES_END - 0x8000_0000
  }

  const BYTES_END: nat := 0x2000_0000_0000_0000

  /** The padding is that of the standard, which also counts modulo 2^64, if and only if the counter is right. */
  lemma {:induction false} PadRightIff(M: seq<int>)
    ensures CountedPad(M) == Pad(M) <==> CounterRight(|Full(M)|)
  {
    hide LengthField, Tail, Pad, CounterRight, CountedBytes;
    var f, r := Full(M), Left(M);
    PadIsTail(f, r);
    assert f + r == M;
    var a, b := LengthField(CountedBytes(|f|, |r|)), LengthField(|M|);
    LengthRight(|f|, |r|);
    if f + Tail(r, a) == f + Tail(r, b) {
      TailInjective(f, r, a, b);
    }
  }

  lemma TailInjective(f: seq<int>, r: seq<int>, a: seq<int>, b: seq<int>)
    requires |r| < 64 && |a| == 8 == |b| && f + Tail(r, a) == f + Tail(r, b)
    ensures a == b
  {
    var n := |f| + PaddedSize(|r|) - 8;
    assert (f + Tail(r, a))[n..] == a;
    assert (f + Tail(r, b))[n..] == b;
  }

  /** While the counter is right, EndSHA yields SHA-256. */
  lemma CountedHashRight(S: Sha, M: seq<int>)
    requires EightWords(S) && CounterRight(|Full(M)|)
    ensures CountedHash(S, M) == Hash(S, M)
  {
    hide Fold, Pad, CountedTail, Digest, CounterRight;
    PadRightIff(M);
  }

  lemma Wrap(p: nat, n: nat)
    ensures ToS32(ToS32(p) + n) == ToS32(p + n)
  {
  }

  /** The message splits uniquely into full blocks and fewer than 64 bytes. */
  lemma SplitMessage(message: seq<int>, full: seq<int>, rest: seq<int>)
    requires message == full + rest && |full| % 64 == 0 && |rest| < 64
    ensures Full(message) == full && Left(message) == rest
  {
    assert |message| % 64 == |rest|;
  }

  /** The byte count that EndSHA computes after p processed bytes, with r bytes left. */
  function CountedBytes(p: nat, r: nat): (b: nat) {
    (ToS32(p) % U64 + r) % U64
  }

  lemma CountModulo(p: nat, r: nat)
    ensures 8 * CountedBytes(p, r) % U64 == 8 * (ToS32(p) + r) % U64
  {
    hide Sort.ToS32;
    var s := ToS32(p);
    var k, l := s / U64, (s % U64 + r) / U64;
    assert 8 * (s + r) == 8 * CountedBytes(p, r) + U64 * (8 * k + 8 * l);
    ModUnique(8 * (s + r), 8 * CountedBytes(p, r), 8 * k + 8 * l);
  }

  lemma ModDifference(a: int, b: int)
    ensures a % U64 == b % U64 <==> (a - b) % U64 == 0
  {
    var k, l := a / U64, b / U64;
    assert a - b == U64 * (k - l) + (a % U64 - b % U64);
    ModUnique(a - b, a % U64 - b % U64, k - l);
  }

  lemma LowBits(p: nat)
    ensures ToS32(p) == ToS32(p % BYTES_END)
  {
    var k, q := p / BYTES_END, p % BYTES_END;
    assert p == 0x1_0000_0000 * (0x2000_0000 * k) + q;
  }

  /** The counter agrees with p modulo 2^61 exactly when it is right. */
  lemma CounterModulo(p: nat, r: nat)
    ensures 8 * (ToS32(p) + r) % U64 == 8 * (p + r) % U64 <==> CounterRight(p)
  {
    hide Sort.ToS32;
    LowBits(p);
    var k := p / BYTES_END;
    var q, s := p % BYTES_END, ToS32(p);
    assert p == BYTES_END * k + q;
    ModUnique(8 * (p + r), 8 * (q + r), k);
    ModDifference(8 * (q + r), 8 * (s + r));
    SignedLow(q);
    RightIff(q, s);
  }

  lemma RightIff(q: nat, s: int)
    requires q < BYTES_END && -0x8000_0000 <= s < 0x8000_0000 && exists c: int :: q == 0x1_0000_0000 * c + s
    ensures 8 * (q - s) % U64 == 0 <==> q < 0x8000_0000 || q >= BYTES_END - 0x8000_0000
  {
    var c: int :| q == 0x1_0000_0000 * c + s;
    assert 0 <= c <= 0x2000_0000;
    assert 8 * (q - s) == 0x8_0000_0000 * c;
  }

  /** The length field is right exactly when the counter is: below 2^61 bytes, in the first 2^31 of them and in the
      last 2^31. */
  lemma {:induction false} LengthRight(p: nat, r: nat)
    ensures LengthField(CountedBytes(p, r)) == LengthField(p + r) <==> CounterRight(p)
    ensures CounterRight(p) <==>
      p % 0x2000_0000_0000_0000 < 0x8000_0000 || p % 0x2000_0000_0000_0000 >= 0x1FFF_FFFF_8000_0000
  {
    hide LengthField, CountedBytes, CounterRight, Sort.ToS32;
    RightMeans(p);
    CountModulo(p, r);
    CounterModulo(p, r);
    if CounterRight(p) {
      LengthModulo(CountedBytes(p, r), p + r);
    } else if LengthField(CountedBytes(p, r)) == LengthField(p + r) {
      LengthInjective(CountedBytes(p, r), p + r);
    }
  }

  lemma RightMeans(p: nat)
    ensures CounterRight(p) <==>
      p % 0x2000_0000_0000_0000 < 0x8000_0000 || p % 0x2000_0000_0000_0000 >= 0x1FFF_FFFF_8000_0000
  {
  }

  lemma SignedLow(p: nat)
    ensures -0x8000_0000 <= ToS32(p) < 0x8000_0000
    ensures exists c: int :: p == 0x1_0000_0000 * c + ToS32(p)
  {
    var c := if p % 0x1_0000_0000 < 0x8000_0000 then p / 0x1_0000_0000 else p / 0x1_0000_0000 + 1;
    assert p == 0x1_0000_0000 * c + ToS32(p);
  }

  lemma HiddenSize(s: ShaStream)
    requires s.Ready()
    ensures s.mem == |s.message| % 64 && s.maxSize == s.capacity - s.mem
  {
    hide Fold, ShaUnit.Valid, Sort.ToS32;
    UnitParts(s.unit);
  }

  /** A whole stream: for every split of a message into fills that fit into the room which the hidden bytes leave, the
      digest is the fold over message and counted padding; this is its SHA-256 while the counter is right. */
  method HashStream(unit: ShaUnit, buffer: array<int>, capacity: nat, chunks: seq<seq<int>>, last: seq<int>)
    returns (digest: seq<int>)
    requires EightWords(unit.S) && |unit.state| == 8
    requires capacity <= buffer.Length < 0x8000_0000 && buffer.Length >= 4096
    requires forall i :: 0 <= i < |chunks| ==> |chunks[i]| <= capacity - |Concat(chunks[..i])| % 64
    requires |last| <= capacity - |Concat(chunks)| % 64
    modifies unit, buffer
    ensures digest == CountedHash(unit.S, Concat(chunks) + last)
    ensures CounterRight(|Full(Concat(chunks) + last)|) ==> digest == Hash(unit.S, Concat(chunks) + last)
  {
    hide Fold, ShaUnit.Valid, Hash, CountedHash, ShaStream.Ready, CounterRight;
    var stream := new ShaStream(unit, buffer, capacity);
    assert chunks[..0] == [];
    for i := 0 to |chunks|
      invariant stream.Ready() && stream.message == Concat(chunks[..i])
      invariant fresh(stream) && stream.unit == unit && stream.buffer == buffer && stream.capacity == capacity
    {
      assert chunks[..i + 1][..i] == chunks[..i];
      HiddenSize(stream);
      stream.Fill(chunks[i]);
      stream.ProcessSHA(chunks[i]);
    }
    assert chunks[..|chunks|] == chunks;
    HiddenSize(stream);
    stream.Fill(last);
    digest := stream.EndSHA(last);
    if CounterRight(|Full(Concat(chunks) + last)|) {
      CountedHashRight(unit.S, Concat(chunks) + last);
    }
  }
}

/** The chunk header of chunk.h: six fields in a 64-bit word, stored right before the
    user's memory, with a checksum over the other fields. */
module ChunkHeader {
  import opened Common

  const HEADER_SIZE := 16
  const MIN_ALIGNMENT := 16

  const AVAILABLE := 0
  const ALLOCATED := 1
  const QUARANTINED := 2

  const BLOCK_MARKER := 0x44554353

  datatype Header = Header(classId: nat, state: nat, origin: nat, sizeOrUnused: nat, offset: nat, checksum: nat)
  {
    ghost predicate Valid() {
      && classId < 0x100 && state < 4 && origin < 4 && sizeOrUnused < 0x10_0000
      && offset < 0x1_0000 && checksum < 0x1_0000
    }

    /** The low half: everything but offset and checksum. */
    function LowHalf(): nat {
      classId + 0x100 * (state + 4 * (origin + 4 * sizeOrUnused))
    }

    function HighHalf(): nat {
      offset + 0x1_0000 * checksum
    }

    function Pack(): nat {
      LowHalf() + 0x1_0000_0000 * HighHalf()
    }
  }

  function Unpack(low: nat, high: nat): Header {
    Header(low % 0x100, low / 0x100 % 4, low / 0x400 % 4, low / 0x1000 % 0x10_0000, high % 0x1_0000, high / 0x1_0000 % 0x1_0000)
  }

  /** The lowest digit and the rest of a number. */
  lemma Digit(x: nat, rest: nat, base: nat)
    requires x < base
    ensures (x + base * rest) % base == x && (x + base * rest) / base == rest
  {
    assert base * rest == rest * base;
    ModUnique(x + base * rest, base, rest, x);
  }

  lemma {:induction false} UnpackPack(h: Header)
    requires h.Valid()
    ensures Unpack(h.LowHalf(), h.HighHalf()) == h
    ensures h.LowHalf() < 0x1_0000_0000 && h.HighHalf() < 0x1_0000_0000
  {
    var w1 := h.origin + 4 * h.sizeOrUnused;
    var w2 := h.state + 4 * w1;
    Digit(h.classId, w2, 0x100);
    Digit(h.state, w1, 4);
    Digit(h.origin, h.sizeOrUnused, 4);
    DivDiv(h.LowHalf(), 0x100, 4);
    DivDiv(h.LowHalf(), 0x400, 4);
    Digit(h.offset, h.checksum, 0x1_0000);
  }

  /** Unpacking two 32-bit words loses nothing. */
  lemma {:induction false} PackUnpack(low: nat, high: nat)
    requires low < 0x1_0000_0000 && high < 0x1_0000_0000
    ensures var h := Unpack(low, high);
      h.Valid() && h.LowHalf() == low && h.HighHalf() == high && h.offset == high % 0x1_0000 && h.checksum == high / 0x1_0000
  {
    DivDiv(low, 0x100, 4);
    DivDiv(low, 0x400, 4);
    DivBounds(low, 0x100);
    DivBounds(low / 0x100, 4);
    DivBounds(low / 0x400, 4);
  }

  /** A header with one of the three states never looks like the marker. */
  lemma {:induction false} NeverBlockMarker(h: Header)
    requires h.Valid() && h.state <= QUARANTINED
    ensures h.LowHalf() != BLOCK_MARKER
  {
    UnpackPack(h);
  }

  /** Memory as 32-bit words, little end first. */
  class Memory {
    const cookie: nat
    const checksum: (nat, nat, nat) -> nat   // of cookie, address and header without checksum
    var words: map<nat, nat>

    constructor (cookie: nat, checksum: (nat, nat, nat) -> nat)
      ensures this.cookie == cookie && this.checksum == checksum && words == map[]
    {
      this.cookie, this.checksum, words := cookie, checksum, map[];
    }

    function Word(at: nat): nat
      reads this
    {
      if at in words then words[at] % 0x1_0000_0000 else 0
    }

    /** computeHeaderChecksum */
    function HeaderChecksum(ptr: nat, h: Header): (c: nat)
      ensures c < 0x1_0000
    {
      checksum(cookie, ptr, h.(checksum := 0).Pack()) % 0x1_0000
    }

    /** loadHeader: nothing if the checksum does not match. */
    function LoadHeader(ptr: nat): Option<Header>
      requires ptr >= HEADER_SIZE
      reads this
    {
      var h := Unpack(Word(ptr - 16), Word(ptr - 12));
      if h.checksum == HeaderChecksum(ptr, h) then Some(h) else None
    }

    /** storeHeader: what is loaded afterwards is what was stored. */
    method StoreHeader(ptr: nat, h: Header)
      requires ptr >= HEADER_SIZE && h.Valid()
      modifies this
      ensures LoadHeader(ptr) == Some(h.(checksum := HeaderChecksum(ptr, h)))
      ensures Word(ptr - 16) == h.LowHalf()
      ensures forall at :: at != ptr - 16 && at != ptr - 12 ==> Word(at) == old(Word(at))
    {
      hide Unpack, Header.LowHalf, Header.HighHalf, HeaderChecksum;
      var full := h.(checksum := HeaderChecksum(ptr, h));
      UnpackPack(full);
      SameRest(h, full.checksum);
      SameChecksum(ptr, h);
      words := words[ptr - 16 := full.LowHalf()];
      words := words[ptr - 12 := full.HighHalf()];
    }

    /** A header is loaded exactly if the top 16 bits of the stored word are the checksum
        of cookie, address and the word without them; then it is what the word says. */
    lemma {:induction false} LoadIff(ptr: nat)
      requires ptr >= HEADER_SIZE
      ensures var low, high := Word(ptr - 16), Word(ptr - 12);
        && (LoadHeader(ptr).Some? <==>
              high / 0x1_0000 == checksum(cookie, ptr, low + 0x1_0000_0000 * (high % 0x1_0000)) % 0x1_0000)
        && (LoadHeader(ptr).Some? ==>
              var h := LoadHeader(ptr).value; h.Valid() && h.LowHalf() == low && h.HighHalf() == high)
    {
      PackUnpack(Word(ptr - 16), Word(ptr - 12));
      hide Unpack, Header.LowHalf;
      SamePack(Unpack(Word(ptr - 16), Word(ptr - 12)));
    }

    static lemma SameRest(h: Header, c: nat)
      ensures h.(checksum := c).LowHalf() == h.LowHalf()
    {
    }

    lemma SameChecksum(ptr: nat, h: Header)
      ensures HeaderChecksum(ptr, h.(checksum := HeaderChecksum(ptr, h))) == HeaderChecksum(ptr, h)
    {
    }

    static lemma SamePack(h: Header)
      ensures h.(checksum := 0).Pack() == h.LowHalf() + 0x1_0000_0000 * h.offset
    {
    }

    /** A header whose low word is overwritten is not loaded any more, exactly if the
        checksum of the new word differs. */
    method StoreAndCorrupt(ptr: nat, h: Header, low: nat)
      requires ptr >= HEADER_SIZE && h.Valid() && low < 0x1_0000_0000
      modifies this
      ensures var rest := 0x1_0000_0000 * h.offset;
        LoadHeader(ptr) == None <==>
          checksum(cookie, ptr, low + rest) % 0x1_0000 != checksum(cookie, ptr, h.LowHalf() + rest) % 0x1_0000
    {
      hide Unpack, Header.LowHalf, LoadHeader, HeaderChecksum;
      StoreHeader(ptr, h);
      LoadIff(ptr);
      words := words[ptr - 16 := low];
      LoadIff(ptr);
    }

    /** initChunk: the header goes before the user's memory; if that is not at the
        start of the block, the block starts with a marker and the distance. */
    method InitChunk(classId: nat, origin: nat, block: nat, userPtr: nat, sizeOrUnused: nat)
      requires block % MIN_ALIGNMENT == 0 && userPtr % MIN_ALIGNMENT == 0
      requires block + HEADER_SIZE <= userPtr && userPtr - block < 0x1_0000_0000
      modifies this
      ensures var h := LoadHeader(userPtr);
        && h.Some? && h.value.classId == classId % 0x100 && h.value.state == ALLOCATED
        && h.value.sizeOrUnused == sizeOrUnused % 0x10_0000 && h.value.origin == origin % 4
        && h.value.offset == (userPtr - block - HEADER_SIZE) / MIN_ALIGNMENT % 0x1_0000
      ensures ChunkOffsetFromBlock(block) == userPtr - block
    {
      hide Unpack, Header.LowHalf, LoadHeader, HeaderChecksum;
      var defaultAlignedPtr := block + HEADER_SIZE;
      var fieldOffset := 0;
      if defaultAlignedPtr != userPtr {
        var offset := userPtr - defaultAlignedPtr;
        Apart(block, userPtr);
        words := words[block := BLOCK_MARKER];
        words := words[block + 4 := offset % 0x1_0000_0000];
        fieldOffset := offset / MIN_ALIGNMENT % 0x1_0000;
      }
      var h := Header(classId % 0x100, ALLOCATED, origin % 4, sizeOrUnused % 0x10_0000, fieldOffset, 0);
      StoreHeader(userPtr, h);
      NeverBlockMarker(h);
    }

    static lemma Apart(block: nat, userPtr: nat)
      requires block % MIN_ALIGNMENT == 0 && userPtr % MIN_ALIGNMENT == 0 && block + HEADER_SIZE < userPtr
      ensures block + 16 <= userPtr - 16
    {
    }

    /** getChunkOffsetFromBlock */
    function ChunkOffsetFromBlock(block: nat): nat
      reads this
    {
      (if Word(block) == BLOCK_MARKER then Word(block + 4) else 0) + HEADER_SIZE
    }
  }

  /** getBlockBegin */
  function BlockBegin(ptr: nat, h: Header): int {
    ptr - HEADER_SIZE - h.offset * MIN_ALIGNMENT
  }

  /** getSize; `blockEnd` is where the block ends if it is a secondary one. */
  function GetSize(ptr: nat, h: Header, blockEnd: nat): int {
    if h.classId != 0 then h.sizeOrUnused else blockEnd - ptr - h.sizeOrUnused
  }

  /** The 16-bit field recovers the start of the block exactly if the user's memory
      starts less than 2^20 bytes after the default position. */
  lemma {:induction false} BlockBeginRecovered(block: nat, userPtr: nat, h: Header)
    requires block % MIN_ALIGNMENT == 0 && userPtr % MIN_ALIGNMENT == 0 && block + HEADER_SIZE <= userPtr
    requires h.offset == (userPtr - block - HEADER_SIZE) / MIN_ALIGNMENT % 0x1_0000
    ensures BlockBegin(userPtr, h) == block <==> userPtr - block - HEADER_SIZE < 0x10_0000
  {
    var d := userPtr - block - HEADER_SIZE;
    assert d == d / 16 * 16;
  }

  /** The 20-bit field recovers the requested size exactly if the recorded number,
      the size or the unused bytes, is below 2^20. */
  lemma {:induction false} SizeRecovered(classId: nat, size: nat, userPtr: nat, blockEnd: nat, h: Header)
    requires classId < 0x100 && h.classId == classId && (classId == 0 ==> userPtr + size <= blockEnd)
    requires h.sizeOrUnused == (if classId != 0 then size else blockEnd - (userPtr + size)) % 0x10_0000
    ensures GetSize(userPtr, h, blockEnd) == size <==>
      (if classId != 0 then size else blockEnd - (userPtr + size)) < 0x10_0000
  {
  }
}

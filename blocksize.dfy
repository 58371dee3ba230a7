/** The size formulas of the revision that peripherals.c is written against.
    A data-bearing record of that revision ends in a `data_block`: a 16-bit
    logical `length` followed by the `data` bytes, as many as the block's
    capacity. A reply that carries the record up to some point is sized with
    `CORE_BLOCK_SIZE` (everything but the data block) or `VARIABLE_BLOCK_SIZE`
    (everything but the unused tail of `data`). */
module BlockSize {
  import opened Bytes
  import opened Layout

  /** A record of that revision: its fixed fields (the header included), then
      a data block of `capacity` data bytes. */
  datatype BlockRecord = BlockRecord(core: seq<Field>, capacity: nat)

  /** `sizeof(data_block.length)`. */
  const LENGTH_FIELD: nat := 2

  function DataBlock(capacity: nat): seq<Field>
  {
    [Field(Length, U16), Field(Data, Bytes(capacity))]
  }

  function BlockLayout(r: BlockRecord): seq<Field>
  {
    r.core + DataBlock(r.capacity)
  }

  /** `sizeof(name_t)` of a packed record: its fixed fields, the length field
      and the whole data capacity. */
  function SizeOf(r: BlockRecord): (n: nat)
    ensures n == Size(r.core) + LENGTH_FIELD + r.capacity
  {
    SizeAppend(r.core, DataBlock(r.capacity));
    SizeOfShort(DataBlock(r.capacity));
    Size(BlockLayout(r))
  }

  /** A record whose capacity its 16-bit length field can count, and whose
      size leaves room for such a length on top of it in a C `int`; every
      record of the program is a few dozen bytes long. */
  predicate Addressable(r: BlockRecord)
  {
    r.capacity < TWO_TO_16 && SizeOf(r) + TWO_TO_16 < 0x8000_0000
  }

  /** The C cast `(int)` of a `size_t` expression: the arithmetic is unsigned
      and wraps modulo 2^32, and the cast reads the bit pattern as signed.
      The result is the same whether `size_t` is 32 or 64 bits wide. */
  function ToInt(u: int): int32
  {
    AsSigned32(u % TWO_TO_32)
  }

  /** `CORE_BLOCK_SIZE(name)`: the record size minus the whole data block.
      That is where the data block begins: a reply of this size carries every
      fixed field and nothing of the block, its length field included. */
  function CoreBlockSize(r: BlockRecord): (n: int32)
    ensures SizeOf(r) < 0x8000_0000 ==> n == Offset(BlockLayout(r), |r.core|)
    ensures SizeOf(r) < 0x8000_0000 ==> n == Size(r.core)
  {
    PairAfter(r.core, DataBlock(r.capacity));
    SizeOfShort(DataBlock(r.capacity));
    ToInt(SizeOf(r) - Size(DataBlock(r.capacity)))
  }

  /** `VARIABLE_BLOCK_SIZE(name, n)`: the record size minus the data capacity,
      plus n. For n within the capacity, a reply of this size carries every
      fixed field, the length field and exactly the first n data bytes, and
      never more than the record. */
  function VariableBlockSize(r: BlockRecord, n: uint32): (m: int32)
    ensures Addressable(r) && n <= r.capacity ==> m == Offset(BlockLayout(r), |r.core| + 1) + n
    ensures Addressable(r) && n <= r.capacity ==> m <= SizeOf(r)
    ensures Addressable(r) && n <= r.capacity ==> m - CoreBlockSize(r) == LENGTH_FIELD + n
  {
    PairAfter(r.core, DataBlock(r.capacity));
    ToInt(SizeOf(r) - r.capacity + n)
  }

  /** One more byte of data makes the reply one byte longer, as long as the
      sum stays below 2^31. */
  lemma VariableBlockSizeStep(r: BlockRecord, n: uint32)
    requires n + 1 < TWO_TO_32
    requires SizeOf(r) - r.capacity + n + 1 < 0x8000_0000
    ensures VariableBlockSize(r, n + 1) == VariableBlockSize(r, n) + 1
  {
  }

  /** With no data at all, a variable-size reply is longer than the core
      reply by exactly the length field. */
  lemma EmptyVariableBlock(r: BlockRecord)
    requires Addressable(r)
    ensures VariableBlockSize(r, 0) - CoreBlockSize(r) == LENGTH_FIELD
    ensures VariableBlockSize(r, 0) - CoreBlockSize(r) == Size(DataBlock(r.capacity)) - r.capacity
  {
    SizeOfShort(DataBlock(r.capacity));
  }

  /** The formula does not stop at the capacity: a 32-bit n of 2^31 or more
      above the fixed part makes the cast negative, and one that reaches 2^32
      wraps the size back to zero. */
  lemma VariableBlockSizeWraps(r: BlockRecord)
    requires Addressable(r)
    ensures VariableBlockSize(r, TWO_TO_32 - (SizeOf(r) - r.capacity)) == 0
    ensures VariableBlockSize(r, 0x8000_0000) < 0
  {
  }
}

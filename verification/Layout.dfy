// The block header and the control structure byte by byte (tlsf.c:208-362), and the constants that follow from them.
module Layout {
  import opened Bits
  import opened Mapping
  import opened Blocks

  const ADDRESS_SIZE := 8

  // ---- block_header_t

  datatype HeaderField = PrevPhys | BlockSize | NextFree | PrevFreeLink

  // The fields of a header are words, in this order.
  function WordOf(x: HeaderField): nat {
    match x
    case PrevPhys => 0
    case BlockSize => 1
    case NextFree => 2
    case PrevFreeLink => 3
  }

  // ---- control_t

  datatype Field =
    | BlockNull
    | FlBitmap
    | SlBitmap(row: nat)
    | Head(row: nat, column: nat)

  predicate Declared(x: Field) {
    match x
    case SlBitmap(i) => i < FL_INDEX_COUNT
    case Head(i, j) => i < FL_INDEX_COUNT && j < SL_INDEX_COUNT
    case _ => true
  }

  function SizeOfField(x: Field): nat {
    match x
    case BlockNull => 4 * ADDRESS_SIZE
    case FlBitmap => 4
    case SlBitmap(_) => 4
    case Head(_, _) => ADDRESS_SIZE
  }

  function AlignOfField(x: Field): nat {
    if x.BlockNull? || x.Head? then ADDRESS_SIZE else 4
  }

  function Offset(x: Field): nat {
    match x
    case BlockNull => 0
    case FlBitmap => 32
    case SlBitmap(i) => 36 + 4 * i
    case Head(i, j) => 136 + 8 * (32 * i + j)
  }

  function End(x: Field): nat { Offset(x) + SizeOfField(x) }

  // The field declared before x
  function Before(x: Field): Field
    requires Declared(x) && !x.BlockNull?
  {
    match x
    case FlBitmap => BlockNull
    case SlBitmap(i) => if i == 0 then FlBitmap else SlBitmap(i - 1)
    case Head(i, j) =>
      if j > 0 then Head(i, j - 1) else if i > 0 then Head(i - 1, SL_INDEX_COUNT - 1) else SlBitmap(FL_INDEX_COUNT - 1)
  }

  // Every field starts at the first offset behind the one before it that its alignment allows; here none is skipped.
  lemma Follows(x: Field)
    requires Declared(x)
    ensures Offset(x) % AlignOfField(x) == 0
    ensures x.BlockNull? ==> Offset(x) == 0
    ensures !x.BlockNull? ==> Declared(Before(x)) && Offset(x) == End(Before(x))
  {}

  // No two fields share a byte.
  lemma FieldsApart(x: Field, y: Field)
    requires Declared(x) && Declared(y) && x != y
    ensures End(x) <= Offset(y) || End(y) <= Offset(x)
  {}

  // The fields are all there is in CONTROL_WORDS words.
  lemma FieldsFill(b: nat)
    ensures b < 8 * CONTROL_WORDS <==> exists x :: Declared(x) && Offset(x) <= b < End(x)
  {
    if b < 8 * CONTROL_WORDS {
      var x := if b < 32 then BlockNull else if b < 36 then FlBitmap else if b < 136 then SlBitmap((b - 36) / 4)
               else Head((b - 136) / 256, (b - 136) % 256 / 8);
      assert Declared(x) && Offset(x) <= b < End(x);
    }
  }

  lemma FieldInside(x: Field)
    requires Declared(x)
    ensures End(x) <= 8 * CONTROL_WORDS
  {}

  // The heads row by row, as in an array of CLASSES heads
  lemma HeadIndex(c: nat)
    ensures c < CLASSES <==> Declared(Head(c / 32, c % 32))
    ensures Offset(Head(c / 32, c % 32)) == 136 + 8 * c
  {}

  // ---- the constants

  lemma Constants()
    ensures ALIGN_SIZE == Pow2(3) && SL_INDEX_COUNT == Pow2(SL_INDEX_COUNT_LOG2) && SL_INDEX_COUNT_LOG2 == 5
    ensures FL_INDEX_SHIFT == SL_INDEX_COUNT_LOG2 + 3 && FL_INDEX_COUNT == 32 - FL_INDEX_SHIFT + 1
    ensures SMALL_BLOCK_SIZE == Pow2(FL_INDEX_SHIFT) && BLOCK_SIZE_MAX == Pow2(32)
    ensures ALIGN_SIZE == SMALL_BLOCK_SIZE / SL_INDEX_COUNT && CLASSES == FL_INDEX_COUNT * SL_INDEX_COUNT
    ensures HEADER_SIZE == 8 * (WordOf(PrevFreeLink) + 1) && HEADER_SIZE == SizeOfField(BlockNull)
    ensures HEADER_OVERHEAD == 8 && BLOCK_SIZE_MIN == HEADER_SIZE - ADDRESS_SIZE
  {
    Pow2Small();
  }
}

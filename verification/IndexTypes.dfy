/** The records the builder writes and the searcher reads (include/struct.h). */
module IndexTypes {

  /** A `field_t`: one bit per field a term was seen in. */
  type FieldSet = bv8

  /** `hit_info.num` has eleven bits, so it counts modulo this. */
  const HIT_NUM_MODULUS: nat := 2048

  /** `loc` stands for the pair (file_no, off): where the hits of the posting start. */
  datatype HitInfo = HitInfo(field: FieldSet, num: nat, loc: nat)

  datatype Posting = Posting(objId: nat, hit: HitInfo)

  /** One record of the term file; the run of its postings is [offset, offset + num). */
  datatype Term = Term(sign: nat, offset: nat, num: nat)

  /** One occurrence of a term in a document, as add_field collects it. */
  datatype Entry = Entry(sign: nat, field: FieldSet, no: nat, offset: nat)

  /** One record of the hit file. */
  datatype Hit = Hit(field: FieldSet, no: nat)

  datatype Brief = Brief(id: int, typ: int, catalogId: int, tagIds: seq<int>, zanNum: int, commentNum: int)

  datatype Option<+T> = None | Some(value: T)

  function Bit(f: FieldSet, mask: FieldSet): nat {
    if f & mask != 0 then 1 else 0
  }

  /** The number of fields in the set. */
  function PopCount(f: FieldSet): nat {
    Bit(f, 1) + Bit(f, 2) + Bit(f, 4) + Bit(f, 8) + Bit(f, 16) + Bit(f, 32) + Bit(f, 64) + Bit(f, 128)
  }

  lemma DropBit(f: FieldSet, mask: FieldSet)
    requires f & mask != 0
    requires mask in {1, 2, 4, 8, 16, 32, 64, 128}
    ensures PopCount(f) == PopCount(f & !mask) + 1
  {
  }

  lemma ClearLowestBit(f: FieldSet)
    requires f != 0
    ensures PopCount(f) == PopCount(f & (f - 1)) + 1
  {
    var mask: FieldSet :=
      if f & 1 != 0 then 1 else if f & 2 != 0 then 2 else if f & 4 != 0 then 4 else if f & 8 != 0 then 8
      else if f & 16 != 0 then 16 else if f & 32 != 0 then 32 else if f & 64 != 0 then 64 else 128;
    assert f & (f - 1) == f & !mask;
    DropBit(f, mask);
  }

  /** The bit-clearing loop of add_obj. */
  method CountFields(field: FieldSet) returns (n: nat)
    ensures n == PopCount(field)
  {
    var f := field;
    n := 0;
    while f != 0
      invariant n + PopCount(f) == PopCount(field)
      decreases PopCount(f)
    {
      ClearLowestBit(f);
      f := f & (f - 1);
      n := n + 1;
    }
  }
}

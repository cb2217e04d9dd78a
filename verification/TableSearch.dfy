/** The decoder's field search, on the packed table: the iterator of pb_common.c in the place of
    the search over the field list. */
module TableSearch {
  import opened Prelude
  import opened Schema
  import opened Meaning
  import opened Descriptor

  /** The packed table of a message without extensions. */
  predicate TableOf(fs: seq<FieldDef>, d: Desc)
  {
    |fs| == |d.fields| && forall i :: 0 <= i < |fs| ==> fs[i].tag == d.fields[i].tag && !IsExtension(fs[i].typ)
  }

  /** With ascending tags a tag has one place. */
  lemma OnePlace(d: Desc, fs: seq<FieldDef>, i: nat)
    requires TableOf(fs, d) && i < |fs|
    requires forall j, k :: 0 <= j < k < |fs| ==> fs[j].tag < fs[k].tag
    ensures FieldIndex(d, fs[i].tag) == Some(i)
  {
    assert d.fields[i].tag == fs[i].tag;
  }

  /** The search in the words finds the field that the field list has for the tag, or none and
      stays: what `Decoder.FindField` does. A tag of 0 never gets here, pb_decode_inner refuses it. */
  method FindPacked(iter: FieldIter, d: Desc, tag: nat) returns (found: bool, i: nat)
    requires iter.Valid() || (iter.Blank() && iter.fields == [] && tag > 0)
    requires TableOf(iter.fields, d)
    modifies iter
    ensures old(iter.Valid()) ==> iter.Valid()
    ensures i == iter.index
    ensures found <==> FieldIndex(d, tag).Some?
    ensures found ==> i == FieldIndex(d, tag).value
    ensures !found ==> i == old(iter.index)
  {
    hide FieldIndex;
    if iter.fields != [] {
      OnePlace(d, iter.fields, iter.index);
    }
    found := iter.Find(tag);
    i := iter.index;
    if found {
      OnePlace(d, iter.fields, i);
    } else {
      Absent(d, iter.fields, tag);
    }
  }

  lemma Absent(d: Desc, fs: seq<FieldDef>, tag: nat)
    requires TableOf(fs, d) && forall i :: 0 <= i < |fs| ==> !Matches(fs[i], tag)
    ensures FieldIndex(d, tag).None?
  {
    assert forall i :: 0 <= i < |fs| ==> Matches(fs[i], tag) == (fs[i].tag == tag);
  }
}

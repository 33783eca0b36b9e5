/**
 The verdicts of `cbor_value_validate` on whole buffers, in terms of the laws of the flags and of
 plain numbers; and on what the encoder writes (src/tinycbor/cborvalidation.c).
 */
module Verdicts {
  import opened Bytes
  import opened Syntax
  import opened Values
  import opened Limits
  import opened Layouts
  import opened EncoderRuns
  import opened Traversal
  import opened Canonical
  import opened Laws
  import opened Validator

  /**
   Succeeds exactly if the buffer starts with a well-formed item with at most 1023 containers and
   tags on a path, of countable lengths, in which every item meets the laws of the flags.
   */
  method ValidateByLaw(data: seq<byte>, f: Flags, fp: FloatCheck) returns (ok: bool)
    requires |data| < TWO_64 && Named(f)
    ensures ok <==>
            && !f.completeData
            && exists c :: StartsWithItem(data, 0, c) && Levels(c) <= 1023 && CountsFit(c) && AllMeet(c, f, fp)
  {
    hide AllMeet;
    ParseExact(data, 0);
    if ParseItem(data, 0).Ok? {
      var c := ParseItem(data, 0).value;
      ParseSound(data, 0);
      ShallowIs(c, MAX_RECURSIONS);
      AcceptLaw(c, f, fp);
    }
    ok := ValidateFirst(data, f, fp);
  }

  // ----- Canonical form

  /** Only the flags about the form of numbers, lengths and maps may be set. */
  predicate FormOnly(f: Flags) {
    f == BASIC.(shortestIntegrals := f.shortestIntegrals, noIndeterminateLength := f.noIndeterminateLength,
                mapIsSorted := f.mapIsSorted, mapKeysAreUnique := f.mapKeysAreUnique)
  }

  /** Every map in the item has its keys in order. */
  ghost predicate AllSorted(c: Cst, unique: bool) {
    forall d | Occurs(d, c) :: Wf(d) && Sorted(d, unique)
  }

  lemma {:induction false} OccursCanonical(d: Cst, c: Cst)
    requires Wf(c) && Values.Canonical(c) && Occurs(d, c)
    ensures Wf(d) && Values.Canonical(d)
    decreases c
  {
    if d != c {
      match c
      case Container(_, _, items) =>
        var i :| 0 <= i < |items| && Occurs(d, items[i]);
        OccursCanonical(d, items[i]);
      case Tag(_, item) => OccursCanonical(d, item);
    }
  }

  lemma CanonicalForm(d: Cst)
    requires Wf(d) && Values.Canonical(d)
    ensures ShortHeads(d) && DefiniteLength(d)
  {
    match d
    case Integer(_, num) => ShortestLaw(num);
    case String(_, _, chunks) => ShortestLaw(chunks[0].num);
    case Container(_, len, _) => ShortestLaw(len.value);
    case Tag(num, _) => ShortestLaw(num);
    case Prim(num) => ShortestLaw(num);
  }

  /** With these flags, a canonical tree is acceptable exactly if its maps are sorted, where that is checked. */
  lemma CanonicalAccepted(c: Cst, f: Flags, fp: FloatCheck)
    requires Wf(c) && Values.Canonical(c) && FormOnly(f)
    ensures Accept(c, f, fp) <==> (f.mapIsSorted || f.noIndeterminateLength ==> AllSorted(c, UniqueKeys(f)))
  {
    AcceptLaw(c, f, fp);
    forall d | Occurs(d, c)
      ensures Wf(d) && (Meets(d, f, fp) <==> (f.mapIsSorted || f.noIndeterminateLength ==> Sorted(d, UniqueKeys(f))))
    {
      OccursCanonical(d, c);
      CanonicalForm(d);
    }
  }

  /** Shortest integers and definite lengths: acceptable exactly if canonical and sorted. */
  lemma CanonicalExactly(c: Cst, f: Flags, fp: FloatCheck)
    requires Wf(c) && FormOnly(f) && f.shortestIntegrals && f.noIndeterminateLength
    ensures Accept(c, f, fp) <==> Values.Canonical(c) && AllSorted(c, UniqueKeys(f))
  {
    if Accept(c, f, fp) {
      AcceptCanonical(c, f, fp);
    }
    if Values.Canonical(c) {
      CanonicalAccepted(c, f, fp);
    }
  }

  /**
   What the encoder writes for a value is accepted, with any of these flags, exactly if the value is
   not nested too deeply, its containers can be counted, and its maps are in order where that is checked.
   */
  method ValidateEncoding(v: Value, f: Flags, fp: FloatCheck) returns (ok: bool)
    requires Valid(v) && Countable(v) && |Encoding(v)| < TWO_64 && FormOnly(f) && Named(f)
    ensures ok <==>
            && Levels(Canon(v)) <= 1023 && CountsFit(Canon(v))
            && (f.mapIsSorted || f.noIndeterminateLength ==> AllSorted(Canon(v), UniqueKeys(f)))
  {
    hide AllSorted, Accept;
    ToOpsRuns(v);
    var data, extra := EncodeGrowing(ToOps(v), 0);
    ParseEncoding(data, 0, v);
    CanonWf(v);
    CanonCanonical(v);
    CanonicalAccepted(Canon(v), f, fp);
    ShallowIs(Canon(v), MAX_RECURSIONS);
    ok := ValidateFirst(data, f, fp);
  }
}

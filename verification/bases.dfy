/** Per-read sequence transforms: reverse complementation, and the bisulfite
    conversion that turns a read into the form compared against the index. */
module Bases {

  /** The reverse complement of `read`. `complement` stands for an
      abstract base complement; the result is built by emitting the
      complement of the last base first. */
  function ReverseComplement(read: seq<char>, complement: char -> char): (r: seq<char>)
    ensures |r| == |read|
    ensures forall i :: 0 <= i < |read| ==> r[i] == complement(read[|read| - 1 - i])
  {
    if |read| == 0 then []
    else [complement(read[|read| - 1])] + ReverseComplement(read[..|read| - 1], complement)
  }

  /** Reverse complementation undoes itself whenever the base complement does. */
  lemma {:induction false} ReverseComplementInvolution(read: seq<char>, complement: char -> char)
    requires forall b :: complement(complement(b)) == b
    ensures ReverseComplement(ReverseComplement(read, complement), complement) == read
  {
    var once := ReverseComplement(read, complement);
    var twice := ReverseComplement(once, complement);
    forall i | 0 <= i < |read|
      ensures twice[i] == read[i]
    {
      assert twice[i] == complement(once[|read| - 1 - i]);
      assert once[|read| - 1 - i] == complement(read[i]);
    }
  }

  /** Bisulfite conversion of the first `readLen` bases of `original`,
      appended to `read`. 'N' becomes `placeholder` (the index's code for an
      unknown base), 'C' becomes 'T', every other base is copied. */
  function C2T(original: seq<char>, readLen: nat, read: seq<char>, placeholder: char): (r: seq<char>)
    requires readLen <= |original|
    ensures |r| == |read| + readLen
    ensures r[..|read|] == read
    ensures forall i :: 0 <= i < readLen && original[i] == 'N' ==> r[|read| + i] == placeholder
    ensures forall i :: 0 <= i < readLen && original[i] == 'C' ==> r[|read| + i] == 'T'
    ensures forall i :: 0 <= i < readLen && original[i] != 'N' && original[i] != 'C' ==>
              r[|read| + i] == original[i]
    decreases readLen
  {
    if readLen == 0 then read
    else
      var b := original[readLen - 1];
      C2T(original, readLen - 1, read, placeholder)
        + [if b == 'N' then placeholder else if b == 'C' then 'T' else b]
  }

  /** A read with neither 'C' nor 'N' is its own converted form. */
  lemma ConversionKeepsPlainReads(original: seq<char>, placeholder: char)
    requires forall i :: 0 <= i < |original| ==> original[i] != 'C' && original[i] != 'N'
    ensures C2T(original, |original|, [], placeholder) == original
  {
    var r := C2T(original, |original|, [], placeholder);
    forall i | 0 <= i < |original|
      ensures r[i] == original[i]
    {
      assert original[i] != 'C' && original[i] != 'N';
    }
  }

  /** Converting twice gives what converting once gives, provided the
      placeholder is itself left alone by the conversion. */
  lemma ConversionIdempotent(original: seq<char>, placeholder: char)
    requires placeholder != 'C' && placeholder != 'N'
    ensures var once := C2T(original, |original|, [], placeholder);
            C2T(once, |once|, [], placeholder) == once
  {
    var once := C2T(original, |original|, [], placeholder);
    forall i | 0 <= i < |once|
      ensures once[i] != 'C' && once[i] != 'N'
    {
      assert original[i] == 'C' || original[i] == 'N' || original[i] == once[i];
    }
    ConversionKeepsPlainReads(once, placeholder);
  }

  /** "ACGTN" converts to "ATGT" followed by the placeholder. */
  lemma ConversionExample(original: seq<char>, placeholder: char)
    requires |original| == 5
    requires original[0] == 'A' && original[1] == 'C' && original[2] == 'G' && original[3] == 'T' && original[4] == 'N'
    ensures C2T(original, |original|, [], placeholder) == ['A', 'T', 'G', 'T', placeholder]
  {
    var r := C2T(original, |original|, [], placeholder);
    assert r[0] == 'A' && r[1] == 'T' && r[2] == 'G' && r[3] == 'T' && r[4] == placeholder;
  }
}

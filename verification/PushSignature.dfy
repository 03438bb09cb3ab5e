/** Which error text a wrong signature gets (android/jni/libpng/pngpread.c:151-182, png.c:49-66). */
module PushSignature {
  import opened PushSpec

  datatype Text = NotAPngFile | AsciiConversion

  /** `png_sig_cmp`: whether it is not zero, for the eight bytes of `info_ptr->signature`. */
  predicate Differs(sig: Bytes, start: nat, count: nat)
    requires |sig| == 8
  {
    var n := if count > 8 then 8 else count;
    if n < 1 || start > 7 then true
    else
      var end := if start + n > 8 then 8 else start + n;
      sig[start..end] != SIGNATURE[start..end]
  }

  /** A `size_t` difference. */
  function SizeMinusFour(n: nat): nat {
    if n >= 4 then n - 4 else 0x1_0000_0000_0000_0000 - (4 - n)
  }

  /** The text of the error for a piece that is wrong; what stands behind the piece is what was there before. */
  function ErrorText(sig: Bytes, checked: nat, count: nat): Text
    requires |sig| == 8
  {
    if checked < 4 && Differs(sig, checked, SizeMinusFour(count)) then NotAPngFile else AsciiConversion
  }

  /** For a wrong piece that begins in the first half of the signature, "Not a PNG file" is said if it is at
      most four bytes long, or wrong before its last four bytes; and only then. */
  lemma ErrorTextIff(sig: Bytes, checked: nat, count: nat)
    requires |sig| == 8 && 0 < count && checked + count <= 8
    requires sig[checked..checked + count] != SIGNATURE[checked..checked + count]
    ensures ErrorText(sig, checked, count) == NotAPngFile
       <==> checked < 4 && (count <= 4 || sig[checked..checked + count - 4] != SIGNATURE[checked..checked + count - 4])
  {
    if count < 4 {
      assert sig[checked..8][..count] == sig[checked..checked + count];
      assert SIGNATURE[checked..8][..count] == SIGNATURE[checked..checked + count];
    }
  }

  /** The same wrong bytes get one text in one piece and the other in two. */
  lemma ErrorTextDependsOnCut()
    ensures var wrong: Bytes := [137, 80, 78, 71, 0, 0, 0, 0];
            && ErrorText(wrong, 0, 5) == AsciiConversion
            && !Differs(wrong, 0, 3) && Differs(wrong, 3, 2) && ErrorText(wrong, 3, 2) == NotAPngFile
  {
    var wrong: Bytes := [137, 80, 78, 71, 0, 0, 0, 0];
    assert wrong[0..1] == SIGNATURE[0..1] && wrong[0..3] == SIGNATURE[0..3];
    assert wrong[3..5][1] != SIGNATURE[3..5][1];
    assert wrong[3..8][1] != SIGNATURE[3..8][1];
  }
}

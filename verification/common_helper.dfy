/** The character-range check of the helper class. */
module CommonHelper {
  import opened Wrappers

  /** Characters strictly above code point 256 count as extended; 256 itself does not. */
  predicate IsExtended(c: char) {
    (c as int) > 256
  }

  /** Whether a possibly-null string holds an extended character: a null or empty one does not. */
  method IsExtendedCharacters(data: Option<string>) returns (r: bool)
    ensures r <==> data.Some? && exists i :: 0 <= i < |data.value| && IsExtended(data.value[i])
  {
    if data.None? || |data.value| == 0 {
      return false;
    }
    var s := data.value;
    var k := 0;
    while k < |s|
      invariant 0 <= k <= |s|
      invariant forall j :: 0 <= j < k ==> !IsExtended(s[j])
    {
      if (s[k] as int) > 256 {
        return true;
      }
      k := k + 1;
    }
    return false;
  }
}

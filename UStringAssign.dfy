/** UString::assign(vector/array, count) and UString::trimLength (tsUStringTemplate.h).

    A UString is modelled as an object holding its characters; both operations
    replace them in place. */
module UStringAssign {
  import opened UChars

  /** The number of characters assign examines: min(size, max(0, count)). */
  function Last(size: nat, count: int): (last: nat)
    ensures last <= size
    ensures count <= 0 ==> last == 0
    ensures 0 <= count <= size ==> last == count
    ensures count >= size ==> last == size
  {
    if count <= 0 then 0 else if count < size then count else size
  }

  /** The text assign(vec, count) stores: the characters of vec before the first
      NUL, looking at no more than `count` of them. */
  function Assigned(vec: seq<char>, count: int): (r: seq<char>)
    ensures |r| <= Last(|vec|, count)
    ensures r == vec[..|r|]
    ensures '\0' !in r
    ensures |r| < Last(|vec|, count) ==> vec[|r|] == '\0'
  {
    CStr(vec[..Last(|vec|, count)])
  }

  /** Assigned is the unique text with the four properties above. */
  lemma AssignedUnique(vec: seq<char>, count: int, r: seq<char>)
    requires |r| <= Last(|vec|, count) && r == vec[..|r|] && '\0' !in r
    requires |r| < Last(|vec|, count) ==> vec[|r|] == '\0'
    ensures r == Assigned(vec, count)
  {
  }

  /** assign(vec), which passes vec.size() as count, stops only at a NUL. */
  lemma AssignWhole(vec: seq<char>)
    ensures Assigned(vec, |vec|) == CStr(vec)
  {
    assert vec[..|vec|] == vec;
  }

  /** A count beyond the size is the same as the size; a non-positive count gives "". */
  lemma AssignCountClamped(vec: seq<char>, count: int)
    ensures count >= |vec| ==> Assigned(vec, count) == Assigned(vec, |vec|)
    ensures count <= 0 ==> Assigned(vec, count) == []
  {
  }

  class UString {
    var chars: seq<char>

    constructor (s: seq<char>)
      ensures chars == s
    {
      chars := s;
    }

    /** UString(const std::vector<CHARTYPE>& vec, INT count), and with count = vec.size()
        when it is omitted. */
    constructor FromVector(vec: seq<char>, count: int)
      ensures chars == Assigned(vec, count)
    {
      chars := [];
      new;
      AssignVector(vec, count);
    }

    /** UString(const std::array<CHARTYPE, SIZE>& arr, INT count), and with count = SIZE
        when it is omitted. */
    constructor FromArray(arr: array<char>, count: int)
      ensures chars == Assigned(arr[..], count)
    {
      chars := [];
      new;
      AssignArray(arr, count);
    }

    /** assign(const std::vector<CHARTYPE>& vec, INT count). */
    method AssignVector(vec: seq<char>, count: int)
      modifies this
      ensures chars == Assigned(vec, count)
    {
      var last := Last(|vec|, count);
      var n := 0;
      while n < last && vec[n] != '\0'
        invariant 0 <= n <= last
        invariant '\0' !in vec[..n]
        decreases last - n
      {
        assert vec[..n + 1] == vec[..n] + [vec[n]];
        n := n + 1;
      }
      AssignedUnique(vec, count, vec[..n]);
      chars := vec[..n];
    }

    /** assign(const std::array<CHARTYPE, SIZE>& arr, INT count). */
    method AssignArray(arr: array<char>, count: int)
      modifies this
      ensures chars == Assigned(arr[..], count)
    {
      var last := Last(arr.Length, count);
      var n := 0;
      while n < last && arr[n] != '\0'
        invariant 0 <= n <= last
        invariant '\0' !in arr[..n]
        decreases last - n
      {
        assert arr[..n + 1] == arr[..n] + [arr[n]];
        n := n + 1;
      }
      AssignedUnique(arr[..], count, arr[..n]);
      chars := arr[..n];
    }

    /** trimLength(length, trimTrailingSpaces): truncate to max(0, length) characters,
        then optionally drop trailing white space. */
    method TrimLength(length: int, trimTrailingSpaces: bool)
      modifies this
      ensures chars == Trimmed(old(chars), length, trimTrailingSpaces)
    {
      var n := Last(|chars|, length);
      chars := chars[..n];
      chars := Trim(chars, false, trimTrailingSpaces);
    }
  }

  /** The text trimLength leaves. */
  function Trimmed(s: seq<char>, length: int, trimTrailingSpaces: bool): (r: seq<char>)
    ensures |r| <= Last(|s|, length)
    ensures r == s[..|r|]
    ensures !trimTrailingSpaces ==> |r| == Last(|s|, length)
    ensures trimTrailingSpaces ==> r == [] || !IsSpace(r[|r| - 1])
    ensures forall i :: |r| <= i < Last(|s|, length) ==> trimTrailingSpaces && IsSpace(s[i])
  {
    TrimTrailingShape(s[..Last(|s|, length)]);
    Trim(s[..Last(|s|, length)], false, trimTrailingSpaces)
  }

  /** trimLength is idempotent. */
  lemma TrimmedIdempotent(s: seq<char>, length: int, trimTrailingSpaces: bool)
    ensures var r := Trimmed(s, length, trimTrailingSpaces);
      Trimmed(r, length, trimTrailingSpaces) == r
  {
    var r := Trimmed(s, length, trimTrailingSpaces);
    assert r[..Last(|r|, length)] == r;
    if trimTrailingSpaces {
      TrailingNoSpace(r);
    }
  }
}

/** Character-level helpers the string templates rely on.

    The library's own definitions of IsSpace, ToDigit and UString::trim are not
    part of this model; they are given the simple explicit definitions below. */
module UChars {

  /** White space: space, horizontal and vertical tab, line feed, form feed and carriage return. */
  predicate IsSpace(c: char)
  {
    c == ' ' || c == '\t' || c == '\n' || c == '\r' || c == '\U{000B}' || c == '\U{000C}'
  }

  /** ToDigit(c, base): the value of c as a digit in the given base, or -1 when c is
      not a digit or its value is not below the base. Digits are 0-9, a-f and A-F. */
  function ToDigit(c: char, base: nat): (d: int)
    ensures d == -1 || 0 <= d < base
    ensures 0 <= d ==> d < 16
    ensures '0' <= c <= '9' && (c as int - '0' as int) < base ==> d == c as int - '0' as int
  {
    var v :=
      if '0' <= c <= '9' then c as int - '0' as int
      else if 'a' <= c <= 'f' then c as int - 'a' as int + 10
      else if 'A' <= c <= 'F' then c as int - 'A' as int + 10
      else -1;
    if v < base then v else -1
  }

  predicate IsDigit(c: char, base: nat)
  {
    ToDigit(c, base) >= 0
  }

  /** The string as seen through c_str(): everything before the first NUL character. */
  function CStr(s: seq<char>): (r: seq<char>)
    ensures r <= s
    ensures '\0' !in r
    ensures |r| < |s| ==> s[|r|] == '\0'
  {
    if s == [] || s[0] == '\0' then [] else [s[0]] + CStr(s[1..])
  }

  /** s without its leading white space. */
  function TrimLeading(s: seq<char>): (r: seq<char>)
    ensures |r| <= |s|
  {
    if s != [] && IsSpace(s[0]) then TrimLeading(s[1..]) else s
  }

  /** TrimLeading removes white space only, and all of it. */
  lemma {:induction false} TrimLeadingShape(s: seq<char>)
    ensures var r := TrimLeading(s);
      r == s[|s| - |r|..]
      && (r != [] ==> !IsSpace(r[0]))
      && forall i :: 0 <= i < |s| - |r| ==> IsSpace(s[i])
  {
    if s != [] && IsSpace(s[0]) {
      TrimLeadingShape(s[1..]);
    }
  }

  /** s without its trailing white space. */
  function TrimTrailing(s: seq<char>): (r: seq<char>)
    ensures |r| <= |s|
  {
    if s != [] && IsSpace(s[|s| - 1]) then TrimTrailing(s[..|s| - 1]) else s
  }

  /** TrimTrailing removes white space only, and all of it. */
  lemma {:induction false} TrimTrailingShape(s: seq<char>)
    ensures var r := TrimTrailing(s);
      r == s[..|r|]
      && (r != [] ==> !IsSpace(r[|r| - 1]))
      && forall i :: |r| <= i < |s| ==> IsSpace(s[i])
  {
    if s != [] && IsSpace(s[|s| - 1]) {
      TrimTrailingShape(s[..|s| - 1]);
    }
  }

  /** UString::trim(leading, trailing): removes leading and/or trailing white space. */
  function Trim(s: seq<char>, leading: bool, trailing: bool): seq<char>
  {
    var l := if leading then TrimLeading(s) else s;
    if trailing then TrimTrailing(l) else l
  }

  /** A string with no white space at either end is its own trim. */
  lemma TrimNoSpace(s: seq<char>)
    requires s != [] ==> !IsSpace(s[0]) && !IsSpace(s[|s| - 1])
    ensures Trim(s, true, true) == s
  {
  }

  /** A string trimmed at both ends neither starts nor ends with white space. */
  lemma TrimBoth(s: seq<char>)
    ensures var r := Trim(s, true, true);
      r != [] ==> !IsSpace(r[0]) && !IsSpace(r[|r| - 1])
  {
    var l := TrimLeading(s);
    TrimLeadingShape(s);
    TrimTrailingShape(l);
  }

  /** A string with no trailing white space is its own trailing trim. */
  lemma TrailingNoSpace(s: seq<char>)
    requires s == [] || !IsSpace(s[|s| - 1])
    ensures TrimTrailing(s) == s
  {
  }

  /** Number of occurrences of c in s. */
  function Count(s: seq<char>, c: char): nat
  {
    if s == [] then 0 else (if s[0] == c then 1 else 0) + Count(s[1..], c)
  }

  /** The characters of s in reverse order. */
  function Reverse<T>(s: seq<T>): (r: seq<T>)
    ensures |r| == |s|
    ensures forall i :: 0 <= i < |s| ==> r[i] == s[|s| - 1 - i]
  {
    if s == [] then [] else Reverse(s[1..]) + [s[0]]
  }

  lemma ReverseConcat<T>(a: seq<T>, b: seq<T>)
    ensures Reverse(a + b) == Reverse(b) + Reverse(a)
  {
    assert Reverse(a + b) == Reverse(b) + Reverse(a) by {
      var r, e := Reverse(a + b), Reverse(b) + Reverse(a);
      assert |r| == |e|;
      forall i | 0 <= i < |r| ensures r[i] == e[i] {
        if i < |b| {
          assert e[i] == Reverse(b)[i];
        } else {
          assert e[i] == Reverse(a)[i - |b|];
        }
      }
    }
  }

  lemma ReverseReverse<T>(s: seq<T>)
    ensures Reverse(Reverse(s)) == s
  {
  }
}

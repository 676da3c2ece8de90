/**
 * NUL-terminated strings in arrays, and the strcmp of sys/tarfs.c.
 */
module CStrings {
  ghost predicate HasNoNul(x: string) { forall i | 0 <= i < |x| :: x[i] != '\0' }

  // The bytes s begin with string x and its terminator.
  ghost predicate IsCString(s: seq<char>, x: string) {
    |x| < |s| && s[..|x|] == x && s[|x|] == '\0' && HasNoNul(x)
  }

  lemma CStringAt(s: seq<char>, x: string, i: nat)
    requires IsCString(s, x) && i <= |x|
    ensures i < |s| && (s[i] == '\0' <==> i == |x|)
    ensures i < |x| ==> s[i] == x[i]
  {
  }

  // 0 exactly for equal strings
  method Strcmp(s: seq<char>, t: seq<char>, ghost x: string, ghost y: string) returns (difference: int)
    requires IsCString(s, x) && IsCString(t, y)
    ensures difference == 0 <==> x == y
  {
    var i := 0;
    CStringAt(s, x, 0);
    CStringAt(t, y, 0);
    while s[i] != '\0' && t[i] != '\0'
      invariant i <= |x| && i <= |y| && i < |s| && i < |t| && x[..i] == y[..i]
      invariant s[i] == '\0' <==> i == |x|
      invariant t[i] == '\0' <==> i == |y|
      decreases |x| - i
    {
      CStringAt(s, x, i);
      CStringAt(t, y, i);
      if s[i] == t[i] {
        CStringAt(s, x, i + 1);
        CStringAt(t, y, i + 1);
        assert x[..i + 1] == x[..i] + [x[i]] && y[..i + 1] == y[..i] + [y[i]];
        i := i + 1;
      } else {
        assert x[i] != y[i];
        return s[i] as int - t[i] as int;
      }
    }
    CStringAt(s, x, i);
    CStringAt(t, y, i);
    assert x[..|x|] == x && y[..|y|] == y;
    return s[i] as int - t[i] as int;
  }

  lemma Reassociate<T>(a: seq<T>, b: seq<T>, c: seq<T>)
    ensures a + b + c == a + (b + c)
  {
  }
}

/** What several modules share. */
module Common {
  datatype Option<T> = None | Some(value: T)

  type Byte = x: int | 0 <= x < 256

  function Min(a: nat, b: nat): nat {
    if a < b then a else b
  }

  function Max(a: int, b: int): (m: int)
    ensures m >= a && m >= b && (m == a || m == b)
  {
    if a < b then b else a
  }

  ghost function Power2(n: nat): (p: nat)
    ensures p > 0
  {
    if n == 0 then 1 else 2 * Power2(n - 1)
  }

  /** Puts `x` in front of position `i`. */
  method PutAt<T>(s: seq<T>, i: nat, x: T) returns (t: seq<T>)
    requires i <= |s|
    ensures |t| == |s| + 1 && multiset(t) == multiset(s) + multiset{x}
    ensures forall j {:trigger t[j]} :: 0 <= j < |t| ==> t[j] == if j < i then s[j] else if j == i then x else s[j - 1]
  {
    t := s[..i] + [x] + s[i..];
    assert s == s[..i] + s[i..];
  }
}

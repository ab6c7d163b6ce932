/** The few pieces of Java's integer and collection semantics the player relies on:
    truncating division and remainder, the narrowing `(int)` cast of a `long`,
    and `indexOf` / `lastIndexOf` with their -1 "not found" answer. */
module JavaLang {

  const INT_MIN: int := -0x8000_0000
  const INT_MAX: int := 0x7FFF_FFFF

  /** Values of Java's 32-bit `int`. */
  type Int32 = x: int | INT_MIN <= x <= INT_MAX

  /** Java's `/` by a positive divisor, which truncates toward zero. */
  function Div(a: int, b: int): (q: int)
    requires b > 0
    ensures a >= 0 ==> 0 <= a - q * b < b
    ensures a < 0 ==> -b < a - q * b <= 0
    ensures a >= 0 ==> q == a / b
  {
    if a >= 0 then a / b
    else
      var m := (-a) / b;
      assert -a == m * b + (-a) % b;
      assert (-m) * b == -(m * b);
      -m
  }

  /** Java's `%` by a positive divisor: the remainder takes the sign of the dividend. */
  function Rem(a: int, b: int): (r: int)
    requires b > 0
    ensures a == Div(a, b) * b + r
    ensures a >= 0 ==> 0 <= r < b
    ensures a < 0 ==> -b < r <= 0
    ensures a >= 0 ==> r == a % b
  {
    a - Div(a, b) * b
  }

  /** The `(int)` cast of a `long`: keeps the low 32 bits as a two's-complement value. */
  function NarrowToInt(x: int): (r: Int32)
    ensures INT_MIN <= x <= INT_MAX ==> r == x
    ensures (x - r) % 0x1_0000_0000 == 0
  {
    var m := x % 0x1_0000_0000;
    if m > INT_MAX then m - 0x1_0000_0000 else m
  }

  /** `List.indexOf`: a position holding `x`, or -1 when there is none. That it
      is the first such position is `IndexOfIsFirst`. */
  function IndexOf<T(==)>(s: seq<T>, x: T): (r: int)
    ensures r == -1 <==> x !in s
    ensures r != -1 ==> 0 <= r < |s| && s[r] == x
  {
    IndexFrom(s, x, 0)
  }

  /** The first position from `i` on holding `x`, or -1. */
  function IndexFrom<T(==)>(s: seq<T>, x: T, i: nat): (r: int)
    requires i <= |s|
    ensures r == -1 <==> x !in s[i..]
    ensures r != -1 ==> i <= r < |s| && s[r] == x
    decreases |s| - i
  {
    if i == |s| then -1
    else if s[i] == x then i
    else
      assert s[i..] == [s[i]] + s[i + 1..];
      IndexFrom(s, x, i + 1)
  }

  /** No position before the one `IndexFrom` finds holds `x`. */
  lemma {:induction false} IndexFromIsFirst<T>(s: seq<T>, x: T, i: nat)
    requires i <= |s|
    ensures forall k :: i <= k < |s| && k < IndexFrom(s, x, i) ==> s[k] != x
    decreases |s| - i
  {
    if i < |s| && s[i] != x {
      IndexFromIsFirst(s, x, i + 1);
    }
  }

  /** `indexOf` finds the first position holding `x`. */
  lemma IndexOfIsFirst<T>(s: seq<T>, x: T)
    ensures forall k :: 0 <= k < IndexOf(s, x) ==> s[k] != x
  {
    IndexFromIsFirst(s, x, 0);
  }

  /** `String.lastIndexOf`: the last position holding `c`, or -1. */
  function LastIndexOf<T(==)>(s: seq<T>, c: T): (r: int)
    ensures r == -1 <==> c !in s
    ensures r != -1 ==> 0 <= r < |s| && s[r] == c && c !in s[r + 1..]
  {
    if |s| == 0 then -1
    else if s[|s| - 1] == c then |s| - 1
    else LastIndexOf(s[..|s| - 1], c)
  }
}

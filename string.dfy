// Model of the kernel's C string routines (src/kernel/lib/string.c): strlen,
// strcpy and strcmp over NUL-terminated byte arrays. A `char` buffer is an
// `array<Byte>`; bytes are held as the unsigned values strcmp compares.
module CString {

  /** A byte, as `unsigned char`. */
  type Byte = x: int | 0 <= x < 256

  /** s holds a C string: some byte of it is the terminating NUL. */
  predicate Terminated(s: seq<Byte>) {
    exists i :: 0 <= i < |s| && s[i] == 0
  }

  /** The length of the C string in s: the number of bytes before the first NUL. */
  function Len(s: seq<Byte>): (n: nat)
    requires Terminated(s)
    ensures n < |s| && s[n] == 0
    ensures forall i :: 0 <= i < n ==> s[i] != 0
  {
    if s[0] == 0 then 0
    else
      var z :| 0 <= z < |s| && s[z] == 0;
      assert s[1..][z - 1] == 0;
      Len(s[1..]) + 1
  }

  /** The C string in s, terminator included. */
  function Str(s: seq<Byte>): (t: seq<Byte>)
    requires Terminated(s)
    ensures |t| == Len(s) + 1 && t[Len(s)] == 0
  {
    s[..Len(s) + 1]
  }

  /**
   * The position where strcmp stops: the first index at which the strings
   * differ or the first one ends. Everything before it agrees and is not NUL.
   */
  function StopAt(a: seq<Byte>, b: seq<Byte>, i: nat): (j: nat)
    requires Terminated(a) && Terminated(b)
    requires i <= Len(a) && i <= Len(b)
    requires forall k :: 0 <= k < i ==> a[k] == b[k]
    ensures i <= j <= Len(a) && j <= Len(b)
    ensures forall k :: 0 <= k < j ==> a[k] == b[k]
    ensures a[j] == 0 || a[j] != b[j]
    decreases Len(a) - i
  {
    if a[i] == 0 || a[i] != b[i] then i else StopAt(a, b, i + 1)
  }

  /** The value strcmp returns: the difference of the unsigned bytes where it stops. */
  function Compare(a: seq<Byte>, b: seq<Byte>): (r: int)
    requires Terminated(a) && Terminated(b)
    ensures -255 <= r <= 255
  {
    var j := StopAt(a, b, 0);
    a[j] as int - b[j] as int
  }

  /** `strlen(str)`: counts bytes until the NUL. */
  method Strlen(str: array<Byte>) returns (len: nat)
    requires Terminated(str[..])
    ensures len < str.Length && str[len] == 0
    ensures forall i :: 0 <= i < len ==> str[i] != 0
  {
    len := 0;
    while str[len] != 0
      invariant len <= Len(str[..])
      decreases Len(str[..]) - len
    {
      len := len + 1;
    }
  }

  /**
   * `strcpy(dest, src)`: `*dest++ = *src++` until the NUL has been copied.
   * Exactly the Len(src) + 1 bytes of the string and its terminator are
   * written; the rest of dest keeps its old contents.
   */
  method Strcpy(dest: array<Byte>, src: array<Byte>)
    requires Terminated(src[..]) && Len(src[..]) < dest.Length
    requires dest != src
    modifies dest
    ensures dest[..Len(src[..]) + 1] == Str(src[..])
    ensures dest[Len(src[..]) + 1..] == old(dest[Len(src[..]) + 1..])
  {
    ghost var n := Len(src[..]);
    var i := 0;
    var c := src[i];
    dest[i] := c;
    while c != 0
      invariant 0 <= i <= n && c == src[i]
      invariant forall k :: 0 <= k <= i ==> dest[k] == src[k]
      invariant forall k :: i < k < dest.Length ==> dest[k] == old(dest[k])
      decreases n - i
    {
      i := i + 1;
      c := src[i];
      dest[i] := c;
    }
    assert i == n;
  }

  /**
   * `strcmp(s1, s2)`: advances while the bytes agree and s1 has not ended,
   * then returns the difference of the bytes there as unsigned chars.
   */
  method Strcmp(s1: array<Byte>, s2: array<Byte>) returns (r: int)
    requires Terminated(s1[..]) && Terminated(s2[..])
    ensures r == Compare(s1[..], s2[..])
    ensures r == 0 <==> Str(s1[..]) == Str(s2[..])
  {
    var i := 0;
    while s1[i] != 0 && s1[i] == s2[i]
      invariant i <= Len(s1[..]) && i <= Len(s2[..])
      invariant forall k :: 0 <= k < i ==> s1[k] == s2[k]
      invariant StopAt(s1[..], s2[..], 0) == StopAt(s1[..], s2[..], i)
      decreases Len(s1[..]) - i
    {
      i := i + 1;
    }
    r := s1[i] as int - s2[i] as int;
    CompareZeroIff(s1[..], s2[..]);
  }

  /** strcmp returns 0 exactly when the two strings agree up to and including the first NUL. */
  lemma CompareZeroIff(a: seq<Byte>, b: seq<Byte>)
    requires Terminated(a) && Terminated(b)
    ensures Compare(a, b) == 0 <==> Str(a) == Str(b)
  {
    var j := StopAt(a, b, 0);
    if Compare(a, b) == 0 {
      assert Str(a) == Str(b) by {
        assert a[j] == 0 && b[j] == 0;
        assert Len(a) == j && Len(b) == j;
        assert a[..j + 1] == b[..j + 1];
      }
    }
    if Str(a) == Str(b) {
      assert a[j] == b[j] by {
        assert Len(a) == Len(b);
        assert a[j] == Str(a)[j] == Str(b)[j];
      }
    }
  }

  /** strcmp is antisymmetric. */
  lemma CompareAntisymmetric(a: seq<Byte>, b: seq<Byte>)
    requires Terminated(a) && Terminated(b)
    ensures Compare(a, b) == -Compare(b, a)
  {
    StopAtSymmetric(a, b, 0);
  }

  lemma {:induction false} StopAtSymmetric(a: seq<Byte>, b: seq<Byte>, i: nat)
    requires Terminated(a) && Terminated(b)
    requires i <= Len(a) && i <= Len(b)
    requires forall k :: 0 <= k < i ==> a[k] == b[k]
    ensures StopAt(a, b, i) == StopAt(b, a, i)
    decreases Len(a) - i
  {
    if !(a[i] == 0 || a[i] != b[i]) {
      StopAtSymmetric(a, b, i + 1);
    }
  }

  /** Every string compares equal to itself. */
  lemma CompareReflexive(s: seq<Byte>)
    requires Terminated(s)
    ensures Compare(s, s) == 0
  {
    CompareZeroIff(s, s);
  }
}

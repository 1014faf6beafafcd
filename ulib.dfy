/**
 * The user-space string library (user/ulib.c).
 *
 * A C string is modelled by the bytes it points at: a `seq<bv8>` that holds
 * a NUL somewhere. A source string (`const char *`) is read-only and is
 * passed as such a sequence; a destination buffer is an array that the
 * copying routines write in place, as their pointer loops do.
 */
module ULib {
  import opened Wrappers

  /** The bytes hold a NUL, so the string they start ends inside them. */
  predicate Terminated(s: seq<bv8>)
  {
    exists i :: 0 <= i < |s| && s[i] == 0
  }

  /** The length of the string: the index of its first NUL. */
  function Len(s: seq<bv8>): (n: nat)
    requires Terminated(s)
    ensures n < |s| && s[n] == 0
    ensures forall i :: 0 <= i < n ==> s[i] != 0
    decreases |s|
  {
    if s[0] == 0 then 0
    else
      var i :| 0 <= i < |s| && s[i] == 0;
      assert s[1..][i - 1] == 0;
      1 + Len(s[1..])
  }

  /** strlen (user/ulib.c:55-63): counts the bytes before the first NUL. */
  method Strlen(s: seq<bv8>) returns (n: nat)
    requires Terminated(s)
    ensures n == Len(s)
  {
    n := 0;
    while s[n] != 0
      invariant n <= Len(s)
      decreases Len(s) - n
    {
      n := n + 1;
    }
  }

  /**
   * The first index at which p and q differ or p ends, from i on; the
   * strings agree before it.
   */
  function FirstDiff(p: seq<bv8>, q: seq<bv8>, i: nat): (k: nat)
    requires Terminated(p) && Terminated(q) && i <= Len(p) && i <= Len(q)
    requires forall j :: 0 <= j < i ==> p[j] == q[j]
    ensures i <= k <= Len(p) && k <= Len(q)
    ensures forall j :: 0 <= j < k ==> p[j] == q[j]
    ensures p[k] == 0 || p[k] != q[k]
    decreases Len(p) - i
  {
    if p[i] == 0 || p[i] != q[i] then i else FirstDiff(p, q, i + 1)
  }

  /** What strcmp returns: the difference of the first differing bytes, as unsigned chars. */
  function Cmp(p: seq<bv8>, q: seq<bv8>): int
    requires Terminated(p) && Terminated(q)
  {
    var k := FirstDiff(p, q, 0);
    p[k] as int - q[k] as int
  }

  /** strcmp (user/ulib.c:47-53), proved against Cmp. */
  method Strcmp(p: seq<bv8>, q: seq<bv8>) returns (r: int)
    requires Terminated(p) && Terminated(q)
    ensures r == Cmp(p, q)
  {
    var i := 0;
    while p[i] != 0 && p[i] == q[i]
      invariant i <= Len(p) && i <= Len(q) && forall j :: 0 <= j < i ==> p[j] == q[j]
      invariant FirstDiff(p, q, i) == FirstDiff(p, q, 0)
      decreases Len(p) - i
    {
      i := i + 1;
    }
    r := p[i] as int - q[i] as int;
  }

  /** strcmp returns 0 exactly when the two strings are equal through their terminators. */
  lemma CmpZero(p: seq<bv8>, q: seq<bv8>)
    requires Terminated(p) && Terminated(q)
    ensures Cmp(p, q) == 0 <==> p[..Len(p) + 1] == q[..Len(q) + 1]
  {
    var k := FirstDiff(p, q, 0);
    if Cmp(p, q) == 0 {
      assert p[k] == q[k] == 0;
      assert k == Len(p) && k == Len(q);
      var a, b := p[..k + 1], q[..k + 1];
      forall j | 0 <= j < |a|
        ensures a[j] == b[j]
      {
        assert a[j] == p[j] && b[j] == q[j];
      }
      assert a == b;
    }
    if p[..Len(p) + 1] == q[..Len(q) + 1] {
      assert Len(p) == Len(q);
      assert p[k] == p[..Len(p) + 1][k];
      assert q[k] == q[..Len(q) + 1][k];
    }
  }

  /** strcmp is antisymmetric: swapping the arguments negates the result. */
  lemma CmpSwap(p: seq<bv8>, q: seq<bv8>)
    requires Terminated(p) && Terminated(q)
    ensures Cmp(q, p) == -Cmp(p, q)
  {
  }

  /**
   * strchr (user/ulib.c:72-79): the index of the first c before the
   * terminator, or None (the null pointer) when there is none; a search
   * for NUL itself therefore finds nothing.
   */
  method Strchr(s: seq<bv8>, c: bv8) returns (r: Option<nat>)
    requires Terminated(s)
    ensures r.Some? ==> r.value < Len(s) && s[r.value] == c && forall i :: 0 <= i < r.value ==> s[i] != c
    ensures r.None? ==> forall i :: 0 <= i < Len(s) ==> s[i] != c
  {
    var i := 0;
    while s[i] != 0
      invariant i <= Len(s) && forall j :: 0 <= j < i ==> s[j] != c
      decreases Len(s) - i
    {
      if s[i] == c {
        return Some(i);
      }
      i := i + 1;
    }
    return None;
  }

  const ZERO: bv8 := 0x30
  const NINE: bv8 := 0x39

  predicate IsDigit(b: bv8)
  {
    ZERO <= b <= NINE
  }

  /** The number of leading decimal digits of s from i on. */
  function DigitRun(s: seq<bv8>, i: nat): (n: nat)
    requires Terminated(s) && i <= Len(s)
    ensures i + n <= Len(s) && (forall j :: i <= j < i + n ==> IsDigit(s[j])) && !IsDigit(s[i + n])
    decreases Len(s) - i
  {
    if IsDigit(s[i]) then 1 + DigitRun(s, i + 1) else 0
  }

  /** The value of a sequence of decimal digits, most significant first. */
  function DecimalValue(ds: seq<bv8>): nat
  {
    if ds == [] then 0 else DecimalValue(ds[..|ds| - 1]) * 10 + (ds[|ds| - 1] - ZERO) as nat
  }

  /** The value atoi gives s: that of its leading digits. */
  function AtoiValue(s: seq<bv8>): nat
    requires Terminated(s)
  {
    DecimalValue(s[..DigitRun(s, 0)])
  }

  /**
   * atoi (user/ulib.c:113-122), proved against AtoiValue: it accumulates
   * the leading digits and stops at the first other byte.
   */
  method Atoi(s: seq<bv8>) returns (n: nat)
    requires Terminated(s)
    ensures n == AtoiValue(s)
  {
    n := 0;
    var i := 0;
    while ZERO <= s[i] && s[i] <= NINE
      invariant i <= DigitRun(s, 0) && n == DecimalValue(s[..i])
      decreases DigitRun(s, 0) - i
    {
      assert s[..i + 1][..i] == s[..i];
      n := n * 10 + (s[i] - ZERO) as nat;
      i := i + 1;
    }
  }

  /** atoi has no sign handling: a string starting with '-' or '+' is worth 0. */
  lemma AtoiNoSign(s: seq<bv8>)
    requires Terminated(s) && (s[0] == 0x2d || s[0] == 0x2b)
    ensures AtoiValue(s) == 0
  {
    assert s[..DigitRun(s, 0)] == [];
  }

  /** The decimal digits of n, most significant first, without leading zeros ("0" for 0). */
  function Decimal(n: nat): (ds: seq<bv8>)
    ensures |ds| > 0 && forall i :: 0 <= i < |ds| ==> IsDigit(ds[i])
  {
    if n < 10 then [ZERO + n as bv8] else Decimal(n / 10) + [ZERO + (n % 10) as bv8]
  }

  /** atoi reads back what Decimal writes, whatever non-digit ends it. */
  lemma {:induction false} AtoiDecimal(n: nat, rest: seq<bv8>)
    requires Terminated(rest) && !IsDigit(rest[0])
    ensures Terminated(Decimal(n) + rest) && AtoiValue(Decimal(n) + rest) == n
  {
    var s := Decimal(n) + rest;
    assert s[|Decimal(n)| + Len(rest)] == 0;
    DigitRunAt(s, Decimal(n));
    assert s[..|Decimal(n)|] == Decimal(n);
    DecimalValueOf(n);
  }

  /** The digit run of prefix + rest, for a digit-only prefix and rest starting with a non-digit, is the prefix. */
  lemma {:induction false} DigitRunAt(s: seq<bv8>, ds: seq<bv8>)
    requires Terminated(s) && |ds| < |s| && s[..|ds|] == ds && !IsDigit(s[|ds|])
    requires forall i :: 0 <= i < |ds| ==> IsDigit(ds[i])
    ensures DigitRun(s, 0) == |ds|
  {
    assert forall j :: 0 <= j < |ds| ==> IsDigit(s[j]) by {
      forall j | 0 <= j < |ds| ensures IsDigit(s[j]) {
        assert s[j] == s[..|ds|][j];
      }
    }
  }

  /** DecimalValue inverts Decimal. */
  lemma {:induction false} DecimalValueOf(n: nat)
    ensures DecimalValue(Decimal(n)) == n
  {
    DigitChar(n % 10);
    if n >= 10 {
      DecimalValueOf(n / 10);
      var ds := Decimal(n);
      assert ds[..|ds| - 1] == Decimal(n / 10);
    }
  }

  /** The character of a digit d reads back as d. */
  lemma DigitChar(d: nat)
    requires d < 10
    ensures ((ZERO + d as bv8) - ZERO) as nat == d
  {
  }

  /**
   * strcpy (user/ulib.c:8-17): copies t into dst through and including
   * its NUL; dst beyond that is untouched. dst must have room, as in C.
   */
  method Strcpy(dst: array<bv8>, t: seq<bv8>)
    requires Terminated(t) && Len(t) < dst.Length
    modifies dst
    ensures forall j :: 0 <= j < dst.Length ==> dst[j] == if j <= Len(t) then t[j] else old(dst[j])
  {
    var i := 0;
    while true
      invariant i <= Len(t)
      invariant forall j :: 0 <= j < dst.Length ==> dst[j] == if j < i then t[j] else old(dst[j])
      decreases Len(t) - i
    {
      dst[i] := t[i];
      if t[i] == 0 {
        return;
      }
      i := i + 1;
    }
  }

  function Min(a: int, b: int): int
  {
    if a < b then a else b
  }

  /** Byte j of what strncpy writes for n: the string t cut at n bytes, then zeros. */
  function NPadded(t: seq<bv8>, n: int, j: nat): bv8
    requires Terminated(t)
  {
    if j < Min(Len(t), n) then t[j] else 0
  }

  /**
   * strncpy (user/ulib.c:19-30): writes exactly the first n bytes of dst
   * when n > 0, the string t cut at n bytes and then zeros, and nothing
   * when n <= 0; when t is n bytes or longer no terminator is written.
   */
  method Strncpy(dst: array<bv8>, t: seq<bv8>, n: int)
    requires Terminated(t) && n <= dst.Length
    modifies dst
    ensures forall j :: 0 <= j < dst.Length ==> dst[j] == if j < n then NPadded(t, n, j) else old(dst[j])
    ensures Len(t) >= n ==> forall j :: 0 <= j < n ==> dst[j] != 0
  {
    var k := 0;
    while k < n && (k == 0 || t[k - 1] != 0)
      invariant 0 <= k <= Len(t) + 1 && k <= Max(n, 0)
      invariant forall j :: 0 <= j < k ==> t[j] != 0 || j == Len(t)
      invariant forall j :: 0 <= j < dst.Length ==> dst[j] == if j < k then t[j] else old(dst[j])
    {
      dst[k] := t[k];
      k := k + 1;
    }
    ghost var copied := k;
    while k < n
      invariant copied <= k <= Max(n, 0)
      invariant forall j :: 0 <= j < dst.Length ==> dst[j] == if j < copied then t[j] else if j < k then 0 else old(dst[j])
    {
      dst[k] := 0;
      k := k + 1;
    }
  }

  function Max(a: int, b: int): int
  {
    if a < b then b else a
  }

  /**
   * safestrcpy (user/ulib.c:32-45): with n > 0 it copies t through its NUL
   * but at most n - 1 bytes, then writes a NUL after what it copied; with
   * n <= 0 it writes nothing.
   */
  method Safestrcpy(dst: array<bv8>, t: seq<bv8>, n: int)
    requires Terminated(t) && n <= dst.Length
    modifies dst
    ensures n <= 0 ==> forall j :: 0 <= j < dst.Length ==> dst[j] == old(dst[j])
    ensures n > 0 ==> forall j :: 0 <= j < dst.Length ==>
      dst[j] == if j < Min(Len(t) + 1, n - 1) then t[j] else if j == Min(Len(t) + 1, n - 1) then 0 else old(dst[j])
  {
    if n <= 0 {
      return;
    }
    var k := 0;
    while k < n - 1 && (k == 0 || t[k - 1] != 0)
      invariant 0 <= k <= Len(t) + 1 && k <= n - 1
      invariant forall j :: 0 <= j < k ==> t[j] != 0 || j == Len(t)
      invariant forall j :: 0 <= j < dst.Length ==> dst[j] == if j < k then t[j] else old(dst[j])
    {
      dst[k] := t[k];
      k := k + 1;
    }
    dst[k] := 0;
  }

  /**
   * After safestrcpy with n > 0 the destination holds a string that ends
   * within its first n bytes: t cut to at most n - 1 bytes.
   */
  lemma SafestrcpyTerminates(t: seq<bv8>, n: nat, d: seq<bv8>)
    requires Terminated(t) && 0 < n <= |d|
    requires forall j :: 0 <= j < n ==> d[j] == if j < Min(Len(t) + 1, n - 1) then t[j] else if j == Min(Len(t) + 1, n - 1) then 0 else d[j]
    requires d[Min(Len(t) + 1, n - 1)] == 0
    ensures Terminated(d) && Len(d) == Min(Len(t), n - 1) && Len(d) < n
    ensures forall j :: 0 <= j < Len(d) ==> d[j] == t[j]
  {
    var m := Min(Len(t), n - 1);
    assert d[m] == 0;
    assert forall i :: 0 <= i < m ==> d[i] == t[i] != 0;
  }

  /**
   * memmove (user/ulib.c:124-135) inside one memory: copies n bytes from
   * src to dst front to back, nothing when n <= 0. When dst lies above src
   * within the n bytes the copy repeats the first dst - src bytes of the
   * source; otherwise byte i of the destination is byte i of the source.
   */
  method Memmove(mem: array<bv8>, dst: nat, src: nat, n: int)
    requires n <= 0 || (dst + n <= mem.Length && src + n <= mem.Length)
    modifies mem
    ensures forall j :: 0 <= j < mem.Length && !(dst <= j < dst + n) ==> mem[j] == old(mem[j])
    ensures forall i :: 0 <= i < n ==> mem[dst + i] == old(mem[src + Period(dst, src, i)])
  {
    var i := 0;
    while i < n
      invariant 0 <= i <= Max(n, 0)
      invariant forall j :: 0 <= j < mem.Length && !(dst <= j < dst + i) ==> mem[j] == old(mem[j])
      invariant forall j :: 0 <= j < i ==> mem[dst + j] == old(mem[src + Period(dst, src, j)])
    {
      if src < dst && i >= dst - src {
        assert src + i == dst + (i - (dst - src));
        assert Period(dst, src, i) == Period(dst, src, i - (dst - src));
      }
      mem[dst + i] := mem[src + i];
      i := i + 1;
    }
  }

  /**
   * Which source byte lands at destination byte i of a front-to-back copy:
   * with dst above src, byte i was itself written dst - src bytes earlier.
   */
  function Period(dst: nat, src: nat, i: nat): (r: nat)
    ensures r <= i && (src < dst ==> r < dst - src)
    ensures src >= dst || i < dst - src ==> r == i
  {
    if src < dst && i >= dst - src then Period(dst, src, i - (dst - src)) else i
  }
}

/** The name formatting of the ls utility (user/ls.c). */
module Ls {
  import opened ULib
  import Fs

  const SLASH: bv8 := 0x2f
  const SPACE: bv8 := 0x20

  /**
   * Where the last component of the path starts when its characters from
   * p + 1 to the terminator hold no '/': just after the last '/' at or
   * before p, or at 0 when there is none.
   */
  function StartFrom(path: seq<bv8>, p: int): (st: nat)
    requires Terminated(path) && -1 <= p <= Len(path)
    requires forall j :: p < j < Len(path) ==> path[j] != SLASH
    ensures st <= Len(path) && st <= p + 1
    ensures st == 0 || path[st - 1] == SLASH
    ensures forall j :: st <= j < Len(path) ==> path[j] != SLASH
    decreases p + 1
  {
    if p < 0 then 0 else if path[p] == SLASH then p + 1 else StartFrom(path, p - 1)
  }

  /** The last component of the path: the characters after its last '/'. */
  function Component(path: seq<bv8>): (c: seq<bv8>)
    requires Terminated(path)
    ensures |c| <= Len(path)
    ensures forall j :: 0 <= j < |c| ==> c[j] != SLASH && c[j] != 0
  {
    path[StartFrom(path, Len(path))..Len(path)]
  }

  /**
   * A name as ls prints it: as is when it has DIRSIZ characters or more,
   * and otherwise padded with spaces to exactly DIRSIZ characters.
   */
  function Padded(c: seq<bv8>): (r: seq<bv8>)
    ensures |c| >= Fs.DIRSIZ ==> r == c
    ensures |c| < Fs.DIRSIZ ==>
      |r| == Fs.DIRSIZ && r[..|c|] == c && forall j :: |c| <= j < Fs.DIRSIZ ==> r[j] == SPACE
  {
    if |c| >= Fs.DIRSIZ then c else c + seq(Fs.DIRSIZ - |c|, _ => SPACE)
  }

  /**
   * The backward scan of fmtname (user/ls.c:11-13) from the terminator at
   * n: where the last component starts, one past the '/' it stops at.
   */
  method LastComponent(path: seq<bv8>, n: nat) returns (st: nat)
    requires Terminated(path) && n == Len(path)
    ensures st == StartFrom(path, n)
  {
    var p: int := n;
    while p >= 0 && path[p] != SLASH
      invariant -1 <= p <= n
      invariant forall j :: p < j < n ==> path[j] != SLASH
      invariant StartFrom(path, p) == StartFrom(path, n)
    {
      p := p - 1;
    }
    st := p + 1;
  }

  /** The string from index p of a string on is its tail. */
  lemma LenSuffix(path: seq<bv8>, p: nat)
    requires Terminated(path) && p <= Len(path)
    ensures Terminated(path[p..]) && Len(path[p..]) == Len(path) - p
  {
    var rest := path[p..];
    assert rest[Len(path) - p] == 0;
    assert forall j :: 0 <= j < Len(path) - p ==> rest[j] == path[p + j];
  }

  /**
   * fmtname (user/ls.c:6-23), the string it returns: the last component
   * of path, padded; it holds no '/'.
   */
  method FmtName(path: seq<bv8>) returns (name: seq<bv8>)
    requires Terminated(path)
    ensures name == Padded(Component(path))
    ensures forall j :: 0 <= j < |name| ==> name[j] != SLASH
  {
    var n := Strlen(path);
    var p := LastComponent(path, n);
    LenSuffix(path, p);
    var len := Strlen(path[p..]);
    var c := path[p..n];
    assert c == Component(path);
    if len >= Fs.DIRSIZ {
      return c;
    }
    name := c + seq(Fs.DIRSIZ - len, _ => SPACE);
  }
}

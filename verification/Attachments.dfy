/** Collision-free attachment paths (internal/handlers/attachments.go, resolveFilePath). */
module Attachments {
  import opened Store

  function Digit(d: nat): (digit: char)
    requires d < 10
  {
    '0' + d as char
  }

  function Decimal(n: nat): (s: string)
    ensures s != []
  {
    if n < 10 then [Digit(n)] else Decimal(n / 10) + [Digit(n % 10)]
  }

  function DigitsValue(s: string): (n: int) {
    if s == [] then 0 else 10 * DigitsValue(s[..|s| - 1]) + (s[|s| - 1] as int - '0' as int)
  }

  /** A number is written in digits from 0 to 9 that read as it, without leading zeros. */
  lemma {:induction false} DecimalReads(n: nat)
    ensures DigitsValue(Decimal(n)) == n
    ensures forall i :: 0 <= i < |Decimal(n)| ==> '0' <= Decimal(n)[i] <= '9'
    ensures n > 0 ==> Decimal(n)[0] != '0'
  {
    if n >= 10 {
      DecimalReads(n / 10);
    }
  }

  lemma {:induction false} DecimalIsInjective(a: nat, b: nat)
    requires Decimal(a) == Decimal(b)
    ensures a == b
    decreases a
  {
    var s, t := Decimal(a), Decimal(b);
    assert s[|s| - 1] == Digit(a % 10) && t[|t| - 1] == Digit(b % 10);
    if a >= 10 && b >= 10 {
      assert Decimal(a / 10) == s[..|s| - 1] == t[..|t| - 1] == Decimal(b / 10);
      DecimalIsInjective(a / 10, b / 10);
    }
  }

  /** The name as it is, then with _1, _2 and so on before its extension. */
  function Candidate(dir: Path, base: string, ext: string, i: nat): (path: Path) {
    if i == 0 then dir + "/" + (base + ext) else dir + "/" + (base + "_" + Decimal(i) + ext)
  }

  lemma CandidatesDiffer(dir: Path, base: string, ext: string, i: nat, j: nat)
    requires 0 < i && 0 < j && Candidate(dir, base, ext, i) == Candidate(dir, base, ext, j)
    ensures i == j
  {
    var front := dir + "/" + base + "_";
    var p, q := Candidate(dir, base, ext, i), Candidate(dir, base, ext, j);
    assert p == front + Decimal(i) + ext && q == front + Decimal(j) + ext;
    assert |Decimal(i)| == |Decimal(j)|;
    assert p[|front|..|front| + |Decimal(i)|] == Decimal(i);
    assert q[|front|..|front| + |Decimal(j)|] == Decimal(j);
    DecimalIsInjective(i, j);
  }

  ghost function Tried(dir: Path, base: string, ext: string, n: nat): (paths: set<Path>) {
    set i | 0 < i < n :: Candidate(dir, base, ext, i)
  }

  lemma {:induction false} TriedAreMany(dir: Path, base: string, ext: string, n: nat)
    requires n > 0
    ensures |Tried(dir, base, ext, n)| == n - 1
  {
    if n == 1 {
      assert Tried(dir, base, ext, n) == {};
    } else {
      TriedAreMany(dir, base, ext, n - 1);
      TriesNew(dir, base, ext, n - 1);
    }
  }

  lemma TriesNew(dir: Path, base: string, ext: string, n: nat)
    requires n > 0
    ensures Candidate(dir, base, ext, n) !in Tried(dir, base, ext, n)
    ensures Tried(dir, base, ext, n + 1) == Tried(dir, base, ext, n) + {Candidate(dir, base, ext, n)}
  {
    if i :| 0 < i < n && Candidate(dir, base, ext, i) == Candidate(dir, base, ext, n) {
      CandidatesDiffer(dir, base, ext, i, n);
    }
  }

  lemma SubsetIsNoLarger(a: set<Path>, b: set<Path>)
    requires a <= b
    ensures |a| <= |b|
  {
    assert |b| == |a| + |b - a| by {
      assert b == a + (b - a);
    }
  }

  /** The first candidate no file has; there always is one. */
  method ResolveFilePath(files: set<Path>, dir: Path, base: string, ext: string) returns (path: Path)
    ensures path !in files
    ensures dir + "/" + (base + ext) !in files ==> path == dir + "/" + (base + ext)
    ensures dir + "/" + (base + ext) in files ==>
              exists i: nat :: i > 0 && path == dir + "/" + (base + "_" + Decimal(i) + ext)
    ensures exists i: nat :: path == Candidate(dir, base, ext, i)
                             && forall j: nat :: j < i ==> Candidate(dir, base, ext, j) in files
  {
    path := Candidate(dir, base, ext, 0);
    if path !in files {
      return;
    }
    var i := 1;
    while true
      invariant i >= 1 && forall j: nat :: j < i ==> Candidate(dir, base, ext, j) in files
      invariant i <= |files| + 1
      decreases |files| + 1 - i
    {
      path := Candidate(dir, base, ext, i);
      if path !in files {
        return;
      }
      i := i + 1;
      TriedAreMany(dir, base, ext, i);
      SubsetIsNoLarger(Tried(dir, base, ext, i), files);
    }
  }
}

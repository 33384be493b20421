/** Python's `os.path.join` on POSIX (`posixpath.join`) and the name after the last `/`. */
module PyPath {
  import opened PyText

  predicate IsAbsolute(p: string) {
    StartsWith(p, "/")
  }

  /** `os.path.join(a, b)`: an absolute `b` replaces `a`; otherwise a `/` is inserted when needed. */
  function Join(a: string, b: string): (r: string)
    ensures |r| >= |b| && r[|r| - |b|..] == b
    ensures !IsAbsolute(b) ==> StartsWith(r, a)
  {
    if IsAbsolute(b) then b
    else if a == [] || a[|a| - 1] == '/' then a + b
    else a + "/" + b
  }

  /** `os.path.join(a, *parts)`: the two-argument join applied from left to right. */
  function JoinAll(a: string, parts: seq<string>): string
    decreases |parts|
  {
    if parts == [] then a else JoinAll(Join(a, parts[0]), parts[1..])
  }

  /** The last `/`-separated component of a path (`p.split('/')[-1]`). */
  function BaseName(p: string): (r: string)
    ensures '/' !in r
  {
    var pieces := SplitOn(p, '/');
    pieces[|pieces| - 1]
  }

  /** Joining a plain file name onto a directory keeps that name as the last component. */
  lemma BaseNameOfJoin(dir: string, name: string)
    requires '/' !in name
    ensures BaseName(Join(dir, name)) == name
  {
    SplitOnNoSep(name, '/');
    if dir != [] {
      var d := if dir[|dir| - 1] == '/' then dir[..|dir| - 1] else dir;
      assert Join(dir, name) == d + ['/'] + name;
      SplitOnConcat(d, '/', name);
    }
  }

  /** Distinct plain names give distinct paths in the same directory. */
  lemma JoinInjective(dir: string, name1: string, name2: string)
    requires '/' !in name1 && '/' !in name2
    requires Join(dir, name1) == Join(dir, name2)
    ensures name1 == name2
  {
    BaseNameOfJoin(dir, name1);
    BaseNameOfJoin(dir, name2);
  }

  /** Relative components that neither start nor end with `/` are separated by exactly one `/`. */
  lemma {:induction false} JoinAllPlain(a: string, parts: seq<string>)
    requires a != [] && a[|a| - 1] != '/'
    requires forall k :: 0 <= k < |parts| ==> parts[k] != [] && parts[k][0] != '/' && parts[k][|parts[k]| - 1] != '/'
    ensures JoinAll(a, parts) == a + Slashed(parts)
    decreases |parts|
  {
    if parts != [] {
      var p0 := parts[0];
      var a' := a + "/" + p0;
      assert !IsAbsolute(p0);
      assert Join(a, p0) == a';
      assert a'[|a'| - 1] == p0[|p0| - 1];
      assert forall k :: 0 <= k < |parts[1..]| ==> parts[1..][k] == parts[k + 1];
      JoinAllPlain(a', parts[1..]);
      var t := Slashed(parts[1..]);
      var slash: string := "/";
      assert Slashed(parts) == slash + p0 + t;
      ConcatAssoc(a, slash + p0, t);
      ConcatAssoc(a, slash, p0);
    }
  }

  /** A relative component goes after a single `/` when the directory does not end in one. */
  lemma JoinPlain(a: string, b: string)
    requires a != [] && a[|a| - 1] != '/' && b != [] && b[0] != '/'
    ensures Join(a, b) == a + "/" + b
  {
    assert b[..1] == [b[0]];
  }

  /** A component that neither starts nor ends with `/`. */
  predicate Plain(p: string) {
    p != [] && p[0] != '/' && p[|p| - 1] != '/'
  }

  /** A directory that does not end in `/`. */
  predicate Unslashed(a: string) {
    a != [] && a[|a| - 1] != '/'
  }

  lemma JoinAllOne(a: string, p: string)
    requires Unslashed(a) && p != [] && p[0] != '/'
    ensures JoinAll(a, [p]) == a + "/" + p
  {
    assert [p][1..] == [];
    JoinPlain(a, p);
  }

  lemma JoinAllTwo(a: string, p: string, q: string)
    requires Unslashed(a) && Plain(p) && q != [] && q[0] != '/'
    ensures JoinAll(a, [p, q]) == a + "/" + p + "/" + q
  {
    var d := a + "/" + p;
    assert [p, q][1..] == [q];
    JoinPlain(a, p);
    assert d[|d| - 1] == p[|p| - 1];
    JoinAllOne(d, q);
  }

  /** Three plain components under a directory are separated by single slashes. */
  lemma JoinAllThree(a: string, p: string, q: string, r: string)
    requires Unslashed(a) && Plain(p) && Plain(q) && r != [] && r[0] != '/'
    ensures JoinAll(a, [p, q, r]) == a + "/" + p + "/" + q + "/" + r
  {
    var d := a + "/" + p;
    assert [p, q, r][1..] == [q, r];
    JoinPlain(a, p);
    assert d[|d| - 1] == p[|p| - 1];
    JoinAllTwo(d, q, r);
  }

  /** Four plain components under a directory are separated by single slashes. */
  lemma JoinAllFour(a: string, p: string, q: string, r: string, t: string)
    requires Unslashed(a) && Plain(p) && Plain(q) && Plain(r) && t != [] && t[0] != '/'
    ensures JoinAll(a, [p, q, r, t]) == a + "/" + p + "/" + q + "/" + r + "/" + t
  {
    var d := a + "/" + p;
    assert [p, q, r, t][1..] == [q, r, t];
    JoinPlain(a, p);
    assert d[|d| - 1] == p[|p| - 1];
    JoinAllThree(d, q, r, t);
  }

  lemma ConcatAssoc(x: string, y: string, z: string)
    ensures x + y + z == x + (y + z)
  {
  }

  /** `"/" + p` for each component, concatenated. */
  function Slashed(parts: seq<string>): string {
    if parts == [] then [] else "/" + parts[0] + Slashed(parts[1..])
  }
}

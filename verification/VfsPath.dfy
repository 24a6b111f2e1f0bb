/** Path strings: splitting them into names, walking names, and the traced form of a path. */
module VfsPath {

  type Path = seq<string>

  /** Longest name a buffer holds; a name this long counts as too long. */
  const NAME_LIMIT: nat := 255
  const MAX_RESOLVES: nat := 64
  const ELOOP: int := 40
  const ENAMETOOLONG: int := 36

  // ----- Splitting -----

  function Stripped(s: string): string { if s != "" && s[0] == '/' then s[1..] else s }

  /** How many characters before the next slash, the end, or the limit. */
  function NameLength(s: string, limit: nat): (n: nat)
    ensures n <= |s| && n <= limit
    ensures '/' !in s[..n]
    ensures n < |s| && n < limit ==> s[n] == '/'
  {
    if s == "" || limit == 0 || s[0] == '/' then 0 else 1 + NameLength(s[1..], limit - 1)
  }

  /** The names of a path: one leading slash is dropped before each, so that a doubled slash gives
      an empty name and a final slash gives none. */
  function Pieces(s: string): Path
    decreases |s|
  {
    var r := Stripped(s);
    if r == "" then []
    else
      var n := NameLength(r, NAME_LIMIT);
      [r[..n]] + Pieces(r[n..])
  }

  lemma {:induction false} NameLengthIs(s: string, limit: nat, n: nat)
    requires n <= |s| && n <= limit && '/' !in s[..n] && (n < |s| && n < limit ==> s[n] == '/')
    ensures NameLength(s, limit) == n
  {
    if n > 0 {
      assert s[0] == s[..n][0];
      assert s[1..][..n - 1] == s[..n][1..];
      NameLengthIs(s[1..], limit - 1, n - 1);
    }
  }

  /** Scanning r for a name has consumed `name` so far. */
  predicate Scanned(r: string, name: string) {
    |name| <= |r| && |name| <= NAME_LIMIT && name == r[..|name|] && '/' !in name
  }

  lemma ScanMore(r: string, name: string)
    requires Scanned(r, name) && |name| < NAME_LIMIT && |name| < |r| && r[|name|] != '/'
    ensures Scanned(r, name + [r[|name|]])
  {
  }

  lemma ScanDone(s: string, name: string)
    requires Stripped(s) != "" && Scanned(Stripped(s), name)
    requires |name| < NAME_LIMIT ==> |name| == |Stripped(s)| || Stripped(s)[|name|] == '/'
    ensures Pieces(s) == [name] + Pieces(Stripped(s)[|name|..])
  {
    NameLengthIs(Stripped(s), NAME_LIMIT, |name|);
  }

  lemma ScanStart(r: string)
    ensures Scanned(r, "")
  {
  }

  // ----- Walking -----

  /** One step of plain list-of-names path walking. */
  function Walked(at: Path, name: string): Path {
    if name == "." then at
    else if name == ".." then if at == [] then [] else at[..|at| - 1]
    else at + [name]
  }

  function WalkedAll(at: Path, names: Path): Path
    decreases |names|
  {
    if names == [] then at else WalkedAll(Walked(at, names[0]), names[1..])
  }

  lemma {:induction false} WalkedLast(at: Path, names: Path, k: nat)
    requires k < |names|
    ensures WalkedAll(at, names[..k + 1]) == Walked(WalkedAll(at, names[..k]), names[k])
    decreases k
  {
    if k == 0 {
      assert names[..1] == [names[0]];
    } else {
      WalkedLast(Walked(at, names[0]), names[1..], k - 1);
      assert names[..k + 1][1..] == names[1..][..k];
      assert names[..k][1..] == names[1..][..k - 1];
    }
  }

  lemma {:induction false} WalkedInTurn(at: Path, a: Path, b: Path)
    ensures WalkedAll(at, a + b) == WalkedAll(WalkedAll(at, a), b)
    decreases |a|
  {
    if a == [] {
      assert a + b == b;
    } else {
      WalkedInTurn(Walked(at, a[0]), a[1..], b);
      assert (a + b)[1..] == a[1..] + b;
    }
  }

  /** "." may be left out anywhere, and so may a name followed by ".."; at the root ".." stays. */
  lemma DotsVanish(at: Path, a: Path, b: Path, name: string)
    ensures WalkedAll(at, a + ["."] + b) == WalkedAll(at, a + b)
    ensures name != "." && name != ".." ==> WalkedAll(at, a + [name, ".."] + b) == WalkedAll(at, a + b)
    ensures WalkedAll([], [".."] + b) == WalkedAll([], b)
  {
    WalkedInTurn(at, a, b);
    WalkedInTurn(at, a, ["."]);
    WalkedInTurn(at, a + ["."], b);
    WalkedInTurn(at, a, [name, ".."]);
    WalkedInTurn(at, a + [name, ".."], b);
    WalkedInTurn([], [".."], b);
    var here := WalkedAll(at, a);
    assert ["."][1..] == [] && [".."][1..] == [] && [name, ".."][1..] == [".."];
    assert WalkedAll(here, ["."]) == here && WalkedAll([], [".."]) == [];
    if name != "." && name != ".." {
      assert Walked(Walked(here, name), "..") == here;
    }
  }

  // ----- The traced form -----

  /** A name that splitting gives back and walking appends. */
  predicate Plain(name: string) {
    0 < |name| < NAME_LIMIT && '/' !in name && '\0' !in name && name != "." && name != ".."
  }

  function Traced(p: Path): string {
    if p == [] then "/" else Traced(p[..|p| - 1]) + p[|p| - 1] + "/"
  }

  function Prefixed(name: string, rest: string): string { "/" + name + rest }

  /** The same from the front. */
  function Slashed(p: Path): (s: string)
    ensures s != "" && s[0] == '/'
    decreases |p|
  {
    if p == [] then "/" else Prefixed(p[0], Slashed(p[1..]))
  }

  lemma {:induction false} SlashedLast(p: Path, name: string)
    ensures Slashed(p + [name]) == Slashed(p) + name + "/"
    decreases |p|
  {
    if p == [] {
      assert [name][1..] == [] && Slashed([name]) == Prefixed(name, Slashed([]));
    } else {
      SlashedLast(p[1..], name);
      assert (p + [name])[1..] == p[1..] + [name];
      assert Slashed(p + [name]) == Prefixed(p[0], Slashed(p[1..] + [name]));
      PrefixedAppend(p[0], Slashed(p[1..]), name);
    }
  }

  lemma PrefixedAppend(a: string, rest: string, name: string)
    ensures Prefixed(a, rest + name + "/") == Prefixed(a, rest) + name + "/"
  {
  }

  lemma {:induction false} TracedIsSlashed(p: Path)
    ensures Traced(p) == Slashed(p)
    decreases |p|
  {
    if p != [] {
      var init, name := p[..|p| - 1], p[|p| - 1];
      TracedIsSlashed(init);
      SlashedLast(init, name);
      assert init + [name] == p;
    }
  }

  lemma PiecesStep(name: string, rest: string)
    requires Plain(name) && rest != "" && rest[0] == '/'
    ensures Pieces(Prefixed(name, rest)) == [name] + Pieces(rest)
  {
    var r := name + rest;
    assert "/" + name + rest == "/" + r;
    assert Stripped("/" + r) == r;
    assert r[..|name|] == name && r[|name|..] == rest;
    ScanDone("/" + r, name);
  }

  lemma HeadTail(p: Path)
    requires p != []
    ensures [p[0]] + p[1..] == p && p[0] in p && forall name | name in p[1..] :: name in p
  {
  }

  lemma PiecesOfRoot()
    ensures Pieces(Slashed([])) == []
  {
  }

  lemma SlashedStep(p: Path)
    requires p != []
    ensures Slashed(p) == Prefixed(p[0], Slashed(p[1..]))
  {
  }

  lemma {:induction false} PiecesOfSlashed(p: Path)
    requires forall name | name in p :: Plain(name)
    ensures Pieces(Slashed(p)) == p
    decreases |p|
  {
    hide *;
    if p == [] {
      PiecesOfRoot();
    } else {
      HeadTail(p);
      PiecesOfSlashed(p[1..]);
      PiecesStep(p[0], Slashed(p[1..]));
      SlashedStep(p);
    }
  }

  lemma {:induction false} WalkedPlain(at: Path, p: Path)
    requires forall name | name in p :: Plain(name)
    ensures WalkedAll(at, p) == at + p
    decreases |p|
  {
    if p != [] {
      assert p[0] in p;
      WalkedPlain(at + [p[0]], p[1..]);
      assert at + [p[0]] + p[1..] == at + p;
    }
  }

  /** Splitting a traced path gives its names back, and walking them from the root leads to it. */
  lemma TraceRoundTrip(p: Path)
    requires forall name | name in p :: Plain(name)
    ensures Pieces(Traced(p)) == p && WalkedAll([], Pieces(Traced(p))) == p && Traced(p)[0] == '/'
  {
    TracedIsSlashed(p);
    PiecesOfSlashed(p);
    WalkedPlain([], p);
    assert [] + p == p;
  }

  // ----- The path cursor -----

  lemma StrippedIs(text: string, at: nat, start: nat)
    requires at <= start <= |text|
    requires start == if at < |text| && text[at] == '/' then at + 1 else at
    ensures Stripped(text[at..]) == text[start..]
  {
  }

  lemma PiecesNone(s: string)
    requires Stripped(s) == ""
    ensures Pieces(s) == []
  {
  }

  lemma SliceTail(text: string, start: nat, n: nat)
    requires start + n <= |text|
    ensures |text[start..]| == |text| - start && text[start..][n..] == text[start + n..]
    ensures start + n < |text| ==> text[start..][n] == text[start + n]
  {
  }

  class Cursor {
    const text: string
    var offset: nat
    var resolves: nat
    var errno: int

    constructor (text: string)
      ensures this.text == text && offset == 0 && resolves == 0 && errno == 0
    {
      this.text, offset, resolves, errno := text, 0, 0, 0;
    }

    ghost predicate Valid()
      reads `offset
    {
      offset <= |text| && '\0' !in text
    }

    ghost function Left(): Path
      requires Valid()
      reads `offset
    {
      Pieces(text[offset..])
    }

    /** text[offset] of the zero-terminated string. */
    function Char(): char
      requires Valid()
      reads `offset
    {
      if offset < |text| then text[offset] else '\0'
    }

    /** The characters up to the end of the section. */
    method Scan() returns (name: string)
      requires Valid()
      modifies `offset, `errno
      ensures offset == old(offset) + |name| <= |text| && Scanned(text[old(offset)..], name)
      ensures |name| < NAME_LIMIT ==> offset == |text| || text[offset] == '/'
      ensures errno == if |name| >= NAME_LIMIT then ENAMETOOLONG else old(errno)
    {
      hide *;
      name := "";
      ghost var start := offset;
      ValidFacts();
      ScanStart(text[start..]);
      while true
        invariant offset == start + |name| <= |text| && '\0' !in text && errno == old(errno)
        invariant Scanned(text[start..], name)
        decreases |text| - offset
      {
        if |name| >= NAME_LIMIT {
          errno := ENAMETOOLONG;
          break;
        }
        MakeValid();
        var chr := Char();
        CharFacts();
        if chr == '/' || chr == '\0' {
          break;
        }
        ScanMore(text[start..], name);
        offset := offset + 1;
        name := name + [chr];
      }
    }

    lemma Start()
      requires offset == 0 && '\0' !in text
      ensures Valid() && Left() == Pieces(text)
    {
      assert text[0..] == text;
    }

    lemma LeftIs()
      requires Valid()
      ensures offset <= |text| && Left() == Pieces(text[offset..])
    {
    }

    lemma CharFacts()
      requires Valid()
      ensures Char() == '\0' <==> offset == |text|
      ensures offset < |text| ==> Char() == text[offset]
    {
    }

    lemma ValidFacts()
      requires Valid()
      ensures offset <= |text| && '\0' !in text
    {
    }

    lemma MakeValid()
      requires offset <= |text| && '\0' !in text
      ensures Valid()
    {
    }

    /** The next name. A name that reaches the limit ends there and leaves an error. */
    method Resolve() returns (more: bool, name: string)
      requires Valid()
      modifies `offset, `resolves, `errno
      ensures Valid() && more == (old(Left()) != [])
      ensures more ==> [name] + Left() == old(Left()) && resolves == old(resolves) + 1
      ensures more ==> errno == if |name| >= NAME_LIMIT then ENAMETOOLONG else old(errno)
      ensures !more ==> resolves == old(resolves) && errno == old(errno)
    {
      hide *;
      ghost var at := offset;
      name := "";
      ValidFacts();
      CharFacts();
      LeftIs();
      if Char() == '/' {
        offset := offset + 1;
      }
      MakeValid();
      StrippedIs(text, at, offset);
      CharFacts();
      if Char() == '\0' {
        PiecesNone(text[at..]);
        return false, name;
      }
      ghost var start := offset;
      name := Scan();
      MakeValid();
      LeftIs();
      ScanDone(text[at..], name);
      SliceTail(text, start, |name|);
      resolves := resolves + 1;
      more := true;
    }
  }
}

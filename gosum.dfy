/** The go.sum codec: a line-oriented `path version hash` format, read into a
    table keyed by (path, version) and written back in key order. */
module GoSum {
  import opened Wrappers
  import opened FileSystem

  /** module.Version: a go.sum key. The version may carry the "/go.mod" suffix. */
  datatype ModVersion = ModVersion(path: string, version: string)

  /** The table that Read fills and Format writes. */
  type Sums = map<ModVersion, seq<string>>

  /** The h1 hash of a one-file tree holding an empty go.mod. Old Go tools wrote
      it into go.sum files by mistake; Read drops every line that carries it. */
  const EmptyGoModHash: string := "h1:G7mAYYxgmS0lVkHyy2hEOLQCFB0DlQFTMLWggykrydY="

  /** The outcome of reading the go.sum file from disk. */
  datatype FileRead = Contents(data: string) | NotExist | ReadFailed(err: IoError)

  /** The list stored under `k`, or the empty list (Go's nil slice) when absent. */
  function Get(m: Sums, k: ModVersion): seq<string>
  {
    if k in m then m[k] else []
  }

  // ---------------------------------------------------------------------------
  // Standard-library helpers the codec relies on.

  /** unicode.IsSpace: the characters with the Unicode White_Space property. */
  predicate IsSpace(c: char)
  {
    var n := c as int;
    n == 0x20 || 0x09 <= n <= 0x0D || n == 0x85 || n == 0xA0 || n == 0x1680
    || 0x2000 <= n <= 0x200A || n == 0x2028 || n == 0x2029 || n == 0x202F
    || n == 0x205F || n == 0x3000
  }

  /** A non-empty string without white space: what strings.Fields returns. */
  predicate Token(s: string)
  {
    s != [] && forall i :: 0 <= i < |s| ==> !IsSpace(s[i])
  }

  /** bytes.IndexByte: the first position of `c` in `s`, or -1. */
  function IndexByte(s: string, c: char): (i: int)
    ensures -1 <= i < |s|
    ensures i == -1 <==> c !in s
    ensures 0 <= i ==> s[i] == c && c !in s[..i]
  {
    if s == [] then -1
    else if s[0] == c then 0
    else
      var j := IndexByte(s[1..], c);
      assert s[1..] == s[..|s|][1..];
      if j < 0 then -1
      else
        assert s[..j + 1] == [s[0]] + s[1..][..j];
        j + 1
  }

  /** The longest prefix of `s` that holds no white space. */
  function Word(s: string): (w: string)
    ensures |w| <= |s| && w == s[..|w|]
    ensures forall i :: 0 <= i < |w| ==> !IsSpace(w[i])
    ensures |w| < |s| ==> IsSpace(s[|w|])
  {
    if s == [] || IsSpace(s[0]) then [] else [s[0]] + Word(s[1..])
  }

  /** strings.Fields: the maximal runs of non-space characters, in order. */
  function Fields(s: string): (fs: seq<string>)
    ensures forall i :: 0 <= i < |fs| ==> Token(fs[i])
    decreases |s|
  {
    if s == [] then []
    else if IsSpace(s[0]) then Fields(s[1..])
    else
      var w := Word(s);
      [w] + Fields(s[|w|..])
  }

  // ---------------------------------------------------------------------------
  // Read (gosum/gosum.go:17-50)

  /** The effect of one line of go.sum on the table: blank lines, lines without
      exactly three fields and lines carrying EmptyGoModHash change nothing;
      any other line appends its hash to the list under (path, version). */
  function AddLine(dst: Sums, line: string): (r: Sums)
    ensures |Fields(line)| != 3 ==> r == dst
    ensures |Fields(line)| == 3 && Fields(line)[2] == EmptyGoModHash ==> r == dst
    ensures |Fields(line)| == 3 && Fields(line)[2] != EmptyGoModHash ==>
      var k := ModVersion(Fields(line)[0], Fields(line)[1]);
      r.Keys == dst.Keys + {k} && r[k] == Get(dst, k) + [Fields(line)[2]]
      && forall k' :: k' in dst && k' != k ==> r[k'] == dst[k']
  {
    var f := Fields(line);
    if |f| == 0 then dst
    else if |f| != 3 then dst
    else if f[2] == EmptyGoModHash then dst
    else
      var k := ModVersion(f[0], f[1]);
      dst[k := Get(dst, k) + [f[2]]]
  }

  /** The table after reading `data` into `dst` line by line; the last line
      need not end in a newline. */
  function ParseInto(dst: Sums, data: string): Sums
    decreases |data|
  {
    if |data| == 0 then dst
    else
      var i := IndexByte(data, '\n');
      if i < 0 then AddLine(dst, data)
      else ParseInto(AddLine(dst, data[..i]), data[i + 1..])
  }

  /** gosum.Read: a missing file leaves `dst` as it is, any other read error is
      returned, and otherwise every line of the file is added to `dst`. */
  method Read(dst: Sums, file: FileRead) returns (r: Result<Sums, IoError>)
    ensures file.ReadFailed? ==> r == Failure(file.err)
    ensures file.NotExist? ==> r == Success(dst)
    ensures file.Contents? ==> r == Success(ParseInto(dst, file.data))
  {
    if file.ReadFailed? {
      return Failure(file.err);
    }
    var data := if file.Contents? then file.data else [];
    var acc := dst;
    while |data| > 0
      invariant ParseInto(acc, data) == (if file.Contents? then ParseInto(dst, file.data) else dst)
      decreases |data|
    {
      var line;
      var i := IndexByte(data, '\n');
      if i < 0 {
        line, data := data, [];
      } else {
        line, data := data[..i], data[i + 1..];
      }
      var f := Fields(line);
      if |f| == 0 {
        // blank line
        continue;
      }
      if |f| != 3 {
        // malformed line
        continue;
      }
      if f[2] == EmptyGoModHash {
        continue;
      }
      var mod := ModVersion(f[0], f[1]);
      acc := acc[mod := Get(acc, mod) + [f[2]]];
    }
    return Success(acc);
  }

  // ---------------------------------------------------------------------------
  // Format (gosum/gosum.go:52-66)

  /** Go's `<` on strings: lexicographic order. */
  predicate StrLess(a: string, b: string)
    decreases |a|
  {
    if a == [] then b != []
    else b != [] && (a[0] < b[0] || (a[0] == b[0] && StrLess(a[1..], b[1..])))
  }

  /** What module.Sort needs of the version comparison (semantic-version
      precedence, then the "/go.mod" suffix): a strict partial order. */
  ghost predicate StrictOrder(before: (string, string) -> bool)
  {
    && (forall x :: !before(x, x))
    && (forall x, y, z :: before(x, y) && before(y, z) ==> before(x, z))
  }

  /** module.Sort's order: by path, then by version. */
  predicate KeyBefore(a: ModVersion, b: ModVersion, versionBefore: (string, string) -> bool)
  {
    StrLess(a.path, b.path) || (a.path == b.path && versionBefore(a.version, b.version))
  }

  /** `keys` lists every key of `content` exactly once, in module.Sort order:
      no key is before a key listed earlier. */
  ghost predicate IsKeyOrder(keys: seq<ModVersion>, content: Sums, versionBefore: (string, string) -> bool)
  {
    && (forall k :: k in keys <==> k in content)
    && (forall k :: multiset(keys)[k] <= 1)
    && (forall i, j :: 0 <= i < j < |keys| ==> !KeyBefore(keys[j], keys[i], versionBefore))
  }

  /** One go.sum line. */
  function Line(k: ModVersion, h: string): string
  {
    k.path + " " + k.version + " " + h + "\n"
  }

  /** The lines for one key: one per stored hash, in stored order. */
  function KeyLines(k: ModVersion, hs: seq<string>): string
    decreases |hs|
  {
    if hs == [] then [] else KeyLines(k, hs[..|hs| - 1]) + Line(k, hs[|hs| - 1])
  }

  /** The text Format writes when the keys come in the order `keys`. */
  function Render(keys: seq<ModVersion>, content: Sums): string
    decreases |keys|
  {
    if keys == [] then []
    else
      var k := keys[|keys| - 1];
      Render(keys[..|keys| - 1], content) + KeyLines(k, Get(content, k))
  }

  /** The data `Format` produces for `content`. */
  ghost predicate IsFormatOf(data: string, content: Sums, versionBefore: (string, string) -> bool)
  {
    exists keys :: IsKeyOrder(keys, content, versionBefore) && data == Render(keys, content)
  }

  lemma {:induction false} StrLessIrreflexive(a: string)
    ensures !StrLess(a, a)
    decreases |a|
  {
    if a != [] {
      StrLessIrreflexive(a[1..]);
    }
  }

  lemma {:induction false} StrLessTransitive(a: string, b: string, c: string)
    requires StrLess(a, b) && StrLess(b, c)
    ensures StrLess(a, c)
    decreases |a|
  {
    if a != [] && a[0] == b[0] && b[0] == c[0] {
      StrLessTransitive(a[1..], b[1..], c[1..]);
    }
  }

  lemma KeyBeforeTransitive(a: ModVersion, b: ModVersion, c: ModVersion, vb: (string, string) -> bool)
    requires StrictOrder(vb)
    requires KeyBefore(a, b, vb) && KeyBefore(b, c, vb)
    ensures KeyBefore(a, c, vb)
  {
    if StrLess(a.path, b.path) && StrLess(b.path, c.path) {
      StrLessTransitive(a.path, b.path, c.path);
    }
  }

  lemma KeyBeforeIrreflexive(a: ModVersion, vb: (string, string) -> bool)
    requires StrictOrder(vb)
    ensures !KeyBefore(a, a, vb)
  {
    StrLessIrreflexive(a.path);
  }

  /** The position of a first element of `s` that no element of `s` is before. */
  method MinIndex(s: seq<ModVersion>, vb: (string, string) -> bool) returns (m: nat)
    requires s != [] && StrictOrder(vb)
    ensures m < |s|
    ensures forall x :: x in s ==> !KeyBefore(x, s[m], vb)
  {
    m := 0;
    KeyBeforeIrreflexive(s[0], vb);
    var j := 1;
    while j < |s|
      invariant 1 <= j <= |s| && m < j
      invariant forall i :: 0 <= i < j ==> !KeyBefore(s[i], s[m], vb)
    {
      if KeyBefore(s[j], s[m], vb) {
        forall i | 0 <= i < j
          ensures !KeyBefore(s[i], s[j], vb)
        {
          if KeyBefore(s[i], s[j], vb) {
            KeyBeforeTransitive(s[i], s[j], s[m], vb);
          }
        }
        KeyBeforeIrreflexive(s[j], vb);
        m := j;
      }
      j := j + 1;
    }
  }

  /** Takes out of `rest` a key that no key of `rest` is before. */
  method TakeMin(rest: seq<ModVersion>, vb: (string, string) -> bool) returns (x: ModVersion, left: seq<ModVersion>)
    requires rest != [] && StrictOrder(vb)
    ensures multiset(rest) == multiset(left) + multiset{x}
    ensures x in rest && forall y :: y in rest ==> !KeyBefore(y, x, vb)
    ensures forall y :: y in left ==> y in rest
    ensures |left| == |rest| - 1
  {
    var m := MinIndex(rest, vb);
    x := rest[m];
    left := rest[..m] + rest[m + 1..];
    assert rest == rest[..m] + [x] + rest[m + 1..];
    forall y | y in left
      ensures y in rest
    {
      assert y in multiset(left);
      assert y in multiset(rest);
    }
  }

  /** module.Sort: puts the keys in order. */
  method SortModVersions(s: seq<ModVersion>, vb: (string, string) -> bool) returns (t: seq<ModVersion>)
    requires StrictOrder(vb)
    ensures multiset(t) == multiset(s)
    ensures forall i, j :: 0 <= i < j < |t| ==> !KeyBefore(t[j], t[i], vb)
  {
    t := [];
    var rest := s;
    while rest != []
      invariant multiset(t) + multiset(rest) == multiset(s)
      invariant forall i, j :: 0 <= i < j < |t| ==> !KeyBefore(t[j], t[i], vb)
      invariant forall i, x :: 0 <= i < |t| && x in rest ==> !KeyBefore(x, t[i], vb)
      decreases |rest|
    {
      var x;
      x, rest := TakeMin(rest, vb);
      assert forall i :: 0 <= i < |t| ==> !KeyBefore(x, t[i], vb);
      t := t + [x];
    }
  }

  /** The keys of a map, in whatever order Go's map iteration yields them. */
  method MapKeys(content: Sums) returns (mods: seq<ModVersion>)
    ensures forall k :: k in mods <==> k in content
    ensures forall k :: multiset(mods)[k] <= 1
  {
    mods := [];
    var rest := content.Keys;
    while rest != {}
      invariant forall k :: k in content <==> k in mods || k in rest
      invariant forall k :: k in mods ==> k !in rest
      invariant forall k :: multiset(mods)[k] <= 1
      decreases rest
    {
      var m :| m in rest;
      assert multiset(mods)[m] == 0;
      mods := mods + [m];
      rest := rest - {m};
    }
  }

  /** The buffer-writing loop of Format: one line per stored hash, key by key. */
  method WriteLines(mods: seq<ModVersion>, content: Sums) returns (data: string)
    ensures data == Render(mods, content)
  {
    data := [];
    var i := 0;
    while i < |mods|
      invariant 0 <= i <= |mods|
      invariant data == Render(mods[..i], content)
    {
      var m := mods[i];
      var list := Get(content, m);
      var j := 0;
      while j < |list|
        invariant 0 <= j <= |list|
        invariant data == Render(mods[..i], content) + KeyLines(m, list[..j])
      {
        assert list[..j + 1][..j] == list[..j];
        data := data + Line(m, list[j]);
        j := j + 1;
      }
      assert list[..j] == list;
      assert mods[..i + 1][..i] == mods[..i];
      i := i + 1;
    }
    assert mods[..i] == mods;
  }

  /** gosum.Format: the keys of `content` in module.Sort order, and for each
      key one line per stored hash, in stored order. */
  method Format(content: Sums, versionBefore: (string, string) -> bool) returns (data: string, ghost keys: seq<ModVersion>)
    requires StrictOrder(versionBefore)
    ensures IsKeyOrder(keys, content, versionBefore)
    ensures data == Render(keys, content)
  {
    var mods := MapKeys(content);
    ghost var collected := mods;
    mods := SortModVersions(mods, versionBefore);
    forall k
      ensures k in mods <==> k in content
    {
      assert k in mods <==> k in multiset(mods);
      assert k in collected <==> k in multiset(collected);
    }

    data := WriteLines(mods, content);
    keys := mods;
  }
}

/** Properties of the go.sum codec: how Read treats line breaks, existing
    entries and the placeholder hash, and that reading what Format wrote gives
    the table back. */
module GoSumProofs {
  import opened GoSum

  /** A table Format can write and Read gives back: keys and hashes are
      non-empty and free of white space, no hash is the placeholder, and no
      key has an empty list. */
  ghost predicate WellFormed(content: Sums)
  {
    forall k :: k in content ==>
      && Token(k.path) && Token(k.version) && content[k] != []
      && forall h :: h in content[k] ==> Token(h) && h != EmptyGoModHash
  }

  /** `before` is kept at the front of `after`. */
  ghost predicate IsPrefix(before: seq<string>, after: seq<string>)
  {
    |before| <= |after| && after[..|before|] == before
  }

  /** `s` is empty or ends with a line break. */
  ghost predicate EndsLine(s: string)
  {
    s == [] || s[|s| - 1] == '\n'
  }

  lemma IndexByteIs(s: string, c: char, i: nat)
    requires i < |s| && s[i] == c && c !in s[..i]
    ensures IndexByte(s, c) == i
  {
    assert c in s by {
      assert s[i] == c;
    }
    var j := IndexByte(s, c);
    forall m | 0 <= m < i
      ensures s[m] != c
    {
      assert s[..i][m] == s[m];
    }
    forall m | 0 <= m < j
      ensures s[m] != c
    {
      assert s[..j][m] == s[m];
    }
  }

  /** Reading `a + b` reads `a`, then `b`, when `a` is made of whole lines. */
  lemma {:induction false} ParseConcat(dst: Sums, a: string, b: string)
    requires EndsLine(a)
    ensures ParseInto(dst, a + b) == ParseInto(ParseInto(dst, a), b)
    decreases |a|
  {
    if a == [] {
      assert a + b == b;
    } else {
      var i := IndexByte(a, '\n');
      assert a[|a| - 1] == '\n';
      assert (a + b)[..i] == a[..i];
      IndexByteIs(a + b, '\n', i);
      assert (a + b)[i + 1..] == a[i + 1..] + b;
      ParseConcat(AddLine(dst, a[..i]), a[i + 1..], b);
    }
  }

  /** A last line without a newline, read with and without one. */
  lemma ParseLastLine(dst: Sums, data: string)
    requires '\n' !in data
    ensures ParseInto(dst, data + "\n") == ParseInto(dst, data)
  {
    var s := data + "\n";
    assert s[..|data|] == data;
    IndexByteIs(s, '\n', |data|);
    assert s[|data| + 1..] == [];
    if data == [] {
      assert Fields([]) == [];
    }
  }

  /** A final line is read the same with or without its newline. */
  lemma {:induction false} ParseTrailingNewline(dst: Sums, data: string)
    ensures ParseInto(dst, data + "\n") == ParseInto(dst, data)
    decreases |data|
  {
    var i := IndexByte(data, '\n');
    if i < 0 {
      ParseLastLine(dst, data);
    } else {
      var s := data + "\n";
      assert s[..i] == data[..i];
      IndexByteIs(s, '\n', i);
      assert s[i + 1..] == data[i + 1..] + "\n";
      ParseTrailingNewline(AddLine(dst, data[..i]), data[i + 1..]);
    }
  }

  /** Read never drops a key or a hash that was already in the table: every
      existing list is kept at the front of the new one. */
  lemma {:induction false} ParseKeepsExisting(dst: Sums, data: string)
    ensures forall k :: k in dst ==> k in ParseInto(dst, data) && IsPrefix(dst[k], ParseInto(dst, data)[k])
    decreases |data|
  {
    if |data| > 0 {
      var i := IndexByte(data, '\n');
      var next := if i < 0 then data else data[..i];
      var d1 := AddLine(dst, next);
      assert forall k :: k in dst ==> k in d1 && IsPrefix(dst[k], d1[k]) by {
        forall k | k in dst
          ensures k in d1 && IsPrefix(dst[k], d1[k])
        {
          var f := Fields(next);
          if |f| == 3 && f[2] != EmptyGoModHash && k == ModVersion(f[0], f[1]) {
            assert d1[k] == dst[k] + [f[2]];
            assert d1[k][..|dst[k]|] == dst[k];
          }
        }
      }
      if 0 <= i {
        ParseKeepsExisting(d1, data[i + 1..]);
        var r := ParseInto(d1, data[i + 1..]);
        forall k | k in dst
          ensures k in r && IsPrefix(dst[k], r[k])
        {
          assert r[k][..|d1[k]|] == d1[k];
          assert r[k][..|dst[k]|] == d1[k][..|dst[k]|];
        }
      }
    }
  }

  ghost predicate NoPlaceholder(m: Sums)
  {
    forall k :: k in m ==> EmptyGoModHash !in m[k]
  }

  lemma AddLineNoPlaceholder(dst: Sums, line: string)
    requires NoPlaceholder(dst)
    ensures NoPlaceholder(AddLine(dst, line))
  {
    var f := Fields(line);
    if |f| == 3 && f[2] != EmptyGoModHash {
      var key := ModVersion(f[0], f[1]);
      assert AddLine(dst, line)[key] == Get(dst, key) + [f[2]];
    }
  }

  /** Read never stores the placeholder hash: a table without it stays
      without it, whatever the file holds. */
  lemma {:induction false} ParseNoPlaceholder(dst: Sums, data: string)
    requires NoPlaceholder(dst)
    ensures NoPlaceholder(ParseInto(dst, data))
    decreases |data|
  {
    if |data| > 0 {
      var i := IndexByte(data, '\n');
      if i < 0 {
        AddLineNoPlaceholder(dst, data);
      } else {
        AddLineNoPlaceholder(dst, data[..i]);
        ParseNoPlaceholder(AddLine(dst, data[..i]), data[i + 1..]);
      }
    }
  }

  lemma {:induction false} WordOfToken(w: string, rest: string)
    requires Token(w)
    requires rest == [] || IsSpace(rest[0])
    ensures Word(w + rest) == w
    decreases |w|
  {
    var s := w + rest;
    assert s[0] == w[0];
    assert s[1..] == w[1..] + rest;
    if |w| > 1 {
      WordOfToken(w[1..], rest);
    }
    assert [w[0]] + w[1..] == w;
  }

  lemma FieldsOfToken(w: string, rest: string)
    requires Token(w)
    requires rest == [] || IsSpace(rest[0])
    ensures Fields(w + rest) == [w] + Fields(rest)
  {
    WordOfToken(w, rest);
    assert (w + rest)[0] == w[0];
    assert (w + rest)[|w|..] == rest;
  }

  lemma FieldsSkipSpace(x: string)
    ensures Fields(" " + x) == Fields(x)
  {
    var s := " " + x;
    assert IsSpace(s[0]);
    assert s[1..] == x;
  }

  lemma FieldsCons(w: string, x: string)
    requires Token(w)
    ensures Fields(w + " " + x) == [w] + Fields(x)
  {
    assert w + " " + x == w + (" " + x);
    FieldsOfToken(w, " " + x);
    FieldsSkipSpace(x);
  }

  lemma FieldsOne(w: string)
    requires Token(w)
    ensures Fields(w) == [w]
  {
    FieldsOfToken(w, []);
    assert w + [] == w;
  }

  /** The fields of a go.sum line are its path, version and hash. */
  lemma LineFields(p: string, v: string, h: string)
    requires Token(p) && Token(v) && Token(h)
    ensures Fields(p + " " + v + " " + h) == [p, v, h]
  {
    var vh := v + " " + h;
    FieldsOne(h);
    FieldsCons(v, h);
    FieldsCons(p, vh);
    assert p + " " + v + " " + h == p + " " + vh;
  }

  /** Reading one line that Format wrote appends its hash under its key. */
  lemma ParseLine(acc: Sums, k: ModVersion, h: string)
    requires Token(k.path) && Token(k.version) && Token(h) && h != EmptyGoModHash
    ensures ParseInto(acc, Line(k, h)) == acc[k := Get(acc, k) + [h]]
  {
    var body := k.path + " " + k.version + " " + h;
    var line := Line(k, h);
    assert line == body + "\n";
    assert IsSpace('\n');
    forall j | 0 <= j < |body|
      ensures body[j] != '\n'
    {
      if j < |k.path| {
        assert body[j] == k.path[j];
      } else if j == |k.path| || j == |k.path| + 1 + |k.version| {
        assert body[j] == ' ';
      } else if j < |k.path| + 1 + |k.version| {
        assert body[j] == k.version[j - |k.path| - 1];
      } else {
        assert body[j] == h[j - |k.path| - 2 - |k.version|];
      }
    }
    assert line[..|body|] == body;
    IndexByteIs(line, '\n', |body|);
    LineFields(k.path, k.version, h);
    assert line[|body| + 1..] == [];
  }

  lemma KeyLinesEnd(k: ModVersion, hs: seq<string>)
    ensures EndsLine(KeyLines(k, hs))
  {
    if hs != [] {
      var x := KeyLines(k, hs[..|hs| - 1]);
      var l := Line(k, hs[|hs| - 1]);
      assert l[|l| - 1] == '\n';
      assert (x + l)[|x + l| - 1] == l[|l| - 1];
    }
  }

  lemma {:induction false} RenderEnd(keys: seq<ModVersion>, content: Sums)
    ensures EndsLine(Render(keys, content))
    decreases |keys|
  {
    if keys != [] {
      var k := keys[|keys| - 1];
      var x := Render(keys[..|keys| - 1], content);
      var l := KeyLines(k, Get(content, k));
      RenderEnd(keys[..|keys| - 1], content);
      KeyLinesEnd(k, Get(content, k));
      if l == [] {
        assert x + l == x;
      } else {
        assert (x + l)[|x + l| - 1] == l[|l| - 1];
      }
    }
  }

  /** Reading one more line that Format wrote after whole lines. */
  lemma ParseAppendLine(acc: Sums, prev: string, k: ModVersion, h: string)
    requires EndsLine(prev)
    requires Token(k.path) && Token(k.version) && Token(h) && h != EmptyGoModHash
    ensures var p := ParseInto(acc, prev); ParseInto(acc, prev + Line(k, h)) == p[k := Get(p, k) + [h]]
  {
    ParseConcat(acc, prev, Line(k, h));
    ParseLine(ParseInto(acc, prev), k, h);
  }

  /** The table after reading the lines of `hs` for key `k`. */
  ghost function WithHashes(acc: Sums, k: ModVersion, hs: seq<string>): Sums
  {
    if hs == [] then acc else acc[k := Get(acc, k) + hs]
  }

  lemma WithOneMore(acc: Sums, k: ModVersion, hs: seq<string>, h: string)
    ensures var p := WithHashes(acc, k, hs); p[k := Get(p, k) + [h]] == WithHashes(acc, k, hs + [h])
  {
    if hs == [] {
      assert hs + [h] == [h];
    } else {
      var p := acc[k := Get(acc, k) + hs];
      assert Get(p, k) + [h] == Get(acc, k) + (hs + [h]);
      assert p[k := Get(p, k) + [h]] == acc[k := Get(acc, k) + (hs + [h])];
    }
  }

  /** Reading the lines Format wrote for one key appends its hashes, in order. */
  lemma {:induction false} ParseKeyLines(acc: Sums, k: ModVersion, hs: seq<string>)
    requires Token(k.path) && Token(k.version)
    requires forall h :: h in hs ==> Token(h) && h != EmptyGoModHash
    ensures ParseInto(acc, KeyLines(k, hs)) == WithHashes(acc, k, hs)
    decreases |hs|
  {
    if hs != [] {
      var n := |hs|;
      var last := hs[n - 1];
      assert last in hs;
      var init := hs[..n - 1];
      assert init + [last] == hs;
      assert forall h :: h in init ==> h in hs;
      ParseKeyLines(acc, k, init);
      KeyLinesEnd(k, init);
      ParseAppendLine(acc, KeyLines(k, init), k, last);
      WithOneMore(acc, k, init, last);
    }
  }

  /** The entries of `content` under the given keys. */
  ghost function Entries(content: Sums, keys: seq<ModVersion>): Sums
  {
    map k | k in content && k in keys :: content[k]
  }

  lemma EntriesOneMore(acc: Sums, content: Sums, keys: seq<ModVersion>, k: ModVersion)
    requires k in content && content[k] != [] && k !in acc && k !in keys
    ensures WithHashes(acc + Entries(content, keys), k, Get(content, k)) == acc + Entries(content, keys + [k])
  {
    var p := acc + Entries(content, keys);
    assert k !in p;
    assert Get(p, k) + content[k] == content[k];
    assert p[k := content[k]] == acc + Entries(content, keys + [k]);
  }

  /** Reading Render(keys, content) into a table that holds none of the keys
      adds exactly the entries of `content` under those keys. */
  lemma {:induction false} ParseRender(acc: Sums, keys: seq<ModVersion>, content: Sums)
    requires WellFormed(content)
    requires forall k :: k in keys ==> k in content && k !in acc
    requires forall i, j :: 0 <= i < j < |keys| ==> keys[i] != keys[j]
    ensures ParseInto(acc, Render(keys, content)) == acc + Entries(content, keys)
    decreases |keys|
  {
    if keys == [] {
      assert Entries(content, keys) == map[];
      assert acc + map[] == acc;
    } else {
      var n := |keys|;
      var init := keys[..n - 1];
      var last := keys[n - 1];
      assert init + [last] == keys;
      assert forall k :: k in init ==> k in keys;
      assert last in keys;
      assert last !in init by {
        forall i | 0 <= i < |init|
          ensures init[i] != last
        {
          assert keys[i] == init[i];
        }
      }
      ParseRender(acc, init, content);
      RenderEnd(init, content);
      ParseConcat(acc, Render(init, content), KeyLines(last, Get(content, last)));
      ParseKeyLines(acc + Entries(content, init), last, content[last]);
      EntriesOneMore(acc, content, init, last);
    }
  }

  lemma KeyOrderDistinct(keys: seq<ModVersion>)
    requires forall k :: multiset(keys)[k] <= 1
    ensures forall i, j :: 0 <= i < j < |keys| ==> keys[i] != keys[j]
  {
    forall i, j | 0 <= i < j < |keys|
      ensures keys[i] != keys[j]
    {
      var x := keys[j];
      assert keys == keys[..j] + [x] + keys[j + 1..];
      assert multiset(keys)[x] == multiset(keys[..j])[x] + 1 + multiset(keys[j + 1..])[x];
      assert x !in multiset(keys[..j]);
      assert keys[..j][i] == keys[i];
    }
  }

  /** Keys that cover the table select all of it. */
  lemma EntriesAll(content: Sums, keys: seq<ModVersion>)
    requires forall k :: k in content ==> k in keys
    ensures map[] + Entries(content, keys) == content
  {
    assert Entries(content, keys).Keys == content.Keys;
  }

  /** Round trip: reading what Format wrote into an empty table gives the
      table back. */
  lemma FormatRoundTrip(keys: seq<ModVersion>, content: Sums, versionBefore: (string, string) -> bool)
    requires WellFormed(content)
    requires IsKeyOrder(keys, content, versionBefore)
    ensures ParseInto(map[], Render(keys, content)) == content
  {
    KeyOrderDistinct(keys);
    ParseRender(map[], keys, content);
    EntriesAll(content, keys);
  }

  /** The same round trip, for any text Format can produce. */
  lemma FormattedReadsBack(data: string, content: Sums, versionBefore: (string, string) -> bool)
    requires WellFormed(content)
    requires IsFormatOf(data, content, versionBefore)
    ensures ParseInto(map[], data) == content
  {
    var keys :| IsKeyOrder(keys, content, versionBefore) && data == Render(keys, content);
    FormatRoundTrip(keys, content, versionBefore);
  }
}

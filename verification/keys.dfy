/** The identity key of a test file: the `cypress/e2e/<dir>/<name>.cy.ts` tail of its path,
    after backslashes are turned into forward slashes. */
module Keys {
  import opened MergeTypes
  import Seqs

  const KeyPrefix: string := "cypress/e2e/"
  const KeyExtension: string := ".cy.ts"

  /** The path with every backslash replaced by a forward slash. */
  function Normalize(p: string): (r: string)
    ensures |r| == |p|
    ensures forall i :: 0 <= i < |p| ==> r[i] == (if p[i] == '\\' then '/' else p[i])
  {
    seq(|p|, i requires 0 <= i < |p| => if p[i] == '\\' then '/' else p[i])
  }

  /** A normalised path holds no backslash, and normalising it again changes nothing. */
  lemma NormalizeIdempotent(p: string)
    ensures forall i :: 0 <= i < |Normalize(p)| ==> Normalize(p)[i] != '\\'
    ensures Normalize(Normalize(p)) == Normalize(p)
  {
  }

  predicate NoSlash(s: string)
  {
    forall i :: 0 <= i < |s| ==> s[i] != '/'
  }

  /** The anchored form of the key pattern: the fixed prefix, a body holding exactly one
      slash with something on either side of it, and the fixed extension. */
  predicate IsKey(k: string)
  {
    && |k| >= |KeyPrefix| + 3 + |KeyExtension|
    && k[..|KeyPrefix|] == KeyPrefix
    && k[|k| - |KeyExtension|..] == KeyExtension
    && TwoSegments(k[|KeyPrefix|..|k| - |KeyExtension|])
  }

  /** `<dir>/<name>`: one slash with a non-empty, slash-free segment on either side. */
  predicate TwoSegments(body: string)
  {
    exists p :: 0 < p < |body| - 1 && body[p] == '/' && NoSlash(body[..p]) && NoSlash(body[p + 1..])
  }

  /** The key of a test file `<name>.cy.ts` in directory `<dir>`. */
  function MakeKey(dir: string, name: string): string
  {
    KeyPrefix + dir + "/" + name + KeyExtension
  }

  /** Keys are exactly the strings `cypress/e2e/<dir>/<name>.cy.ts` with non-empty,
      slash-free `<dir>` and `<name>`. */
  lemma IsKeyShape(k: string)
    ensures IsKey(k) <==>
      exists dir, name :: dir != [] && name != [] && NoSlash(dir) && NoSlash(name) && k == MakeKey(dir, name)
  {
    if IsKey(k) {
      var dir, name := SplitKey(k);
    }
    if exists dir, name :: dir != [] && name != [] && NoSlash(dir) && NoSlash(name) && k == MakeKey(dir, name) {
      var dir, name :| dir != [] && name != [] && NoSlash(dir) && NoSlash(name) && k == MakeKey(dir, name);
      MakeKeyIsKey(dir, name);
    }
  }

  /** The directory and file name parts of a key. */
  lemma SplitKey(k: string) returns (dir: string, name: string)
    requires IsKey(k)
    ensures dir != [] && name != [] && NoSlash(dir) && NoSlash(name) && k == MakeKey(dir, name)
  {
    var body := k[|KeyPrefix|..|k| - |KeyExtension|];
    var p :| 0 < p < |body| - 1 && body[p] == '/' && NoSlash(body[..p]) && NoSlash(body[p + 1..]);
    dir, name := body[..p], body[p + 1..];
    SplitAt(body, p);
    Frame(k, KeyPrefix, KeyExtension);
    Seqs.Assoc(KeyPrefix, dir + "/", name);
    Seqs.Assoc(KeyPrefix, dir, "/");
  }

  /** A string is its part before position `p`, the character there, and the rest. */
  lemma SplitAt(s: string, p: nat)
    requires p < |s|
    ensures s == s[..p] + [s[p]] + s[p + 1..]
  {
  }

  /** A string with a given head and tail is the head, the middle and the tail. */
  lemma Frame(k: string, head: string, tail: string)
    requires |head| + |tail| <= |k| && k[..|head|] == head && k[|k| - |tail|..] == tail
    ensures k == head + k[|head|..|k| - |tail|] + tail
  {
    Seqs.ThreeParts(k, |head|, |k| - |tail|);
  }

  lemma MakeKeyIsKey(dir: string, name: string)
    requires dir != [] && name != [] && NoSlash(dir) && NoSlash(name)
    ensures IsKey(MakeKey(dir, name))
  {
    var k := MakeKey(dir, name);
    var body := dir + "/" + name;
    assert k == KeyPrefix + body + KeyExtension;
    assert k[..|KeyPrefix|] == KeyPrefix;
    assert k[|k| - |KeyExtension|..] == KeyExtension;
    assert k[|KeyPrefix|..|k| - |KeyExtension|] == body;
    var p := |dir|;
    assert body[..p] == dir && body[p + 1..] == name;
  }

  /** Where the slashes of a key lie: after `cypress/e2e`, and once inside the body,
      with none between or after them. */
  lemma KeyLayout(k: string) returns (p: nat)
    requires IsKey(k)
    ensures |KeyPrefix| + p < |k|
    ensures k[|KeyPrefix| - 1] == '/' && k[|KeyPrefix| + p] == '/'
    ensures NoSlash(k[|KeyPrefix|..|KeyPrefix| + p]) && NoSlash(k[|KeyPrefix| + p + 1..])
  {
    var body := k[|KeyPrefix|..|k| - |KeyExtension|];
    p :| 0 < p < |body| - 1 && body[p] == '/' && NoSlash(body[..p]) && NoSlash(body[p + 1..]);
    Frame(k, KeyPrefix, KeyExtension);
    PatternSlashes();
    Layout(k, KeyPrefix, body, KeyExtension, p);
  }

  /** The fixed prefix ends in a slash and the extension holds none. */
  lemma PatternSlashes()
    ensures |KeyPrefix| > 0 && KeyPrefix[|KeyPrefix| - 1] == '/' && NoSlash(KeyExtension)
  {
  }

  /** Where the slashes of `head + body + tail` lie, for a head ending in a slash, a body
      with one slash at `p` and a tail without slashes. */
  lemma Layout(k: string, head: string, body: string, tail: string, p: nat)
    requires k == head + body + tail && |head| > 0 && head[|head| - 1] == '/' && NoSlash(tail)
    requires p < |body| && body[p] == '/' && NoSlash(body[..p]) && NoSlash(body[p + 1..])
    ensures |head| + p < |k|
    ensures k[|head| - 1] == '/' && k[|head| + p] == '/'
    ensures NoSlash(k[|head|..|head| + p]) && NoSlash(k[|head| + p + 1..])
  {
    forall i | |head| <= i < |head| + p
      ensures k[i] != '/'
    {
      assert k[i] == body[..p][i - |head|];
    }
    forall i | |head| + p + 1 <= i < |k|
      ensures k[i] != '/'
    {
      if i < |head| + |body| {
        assert k[i] == body[p + 1..][i - |head| - p - 1];
      } else {
        assert k[i] == tail[i - |head| - |body|];
      }
    }
  }

  /** Two slashes followed by no further slash up to `e` are the same slash. */
  lemma LastSlashUnique(s: string, x: nat, y: nat, e: nat)
    requires x < e && y < e && e <= |s| && s[x] == '/' && s[y] == '/'
    requires NoSlash(s[x + 1..e]) && NoSlash(s[y + 1..e])
    ensures x == y
  {
  }

  /** At most one suffix of a string is a key, so the leftmost match of the unanchored
      pattern is the only one. */
  lemma {:induction false} KeySuffixUnique(s: string, i: nat, j: nat)
    requires i <= j <= |s| && IsKey(s[i..]) && IsKey(s[j..])
    ensures i == j
  {
    var n := |KeyPrefix|;
    var li := KeySlashes(s, i);
    var lj := KeySlashes(s, j);
    LastSlashUnique(s, li, lj, |s|);
    LastSlashUnique(s, i + n - 1, j + n - 1, li);
  }

  /** The slash ending `cypress/e2e/` and the slash inside the body of a key that is a
      suffix of `s`, as positions of `s`. */
  lemma KeySlashes(s: string, i: nat) returns (l: nat)
    requires i <= |s| && IsKey(s[i..])
    ensures i + |KeyPrefix| <= l < |s|
    ensures s[i + |KeyPrefix| - 1] == '/' && s[l] == '/'
    ensures NoSlash(s[i + |KeyPrefix|..l]) && NoSlash(s[l + 1..])
  {
    var n := |KeyPrefix|;
    var p := KeyLayout(s[i..]);
    l := i + n + p;
    assert s[i..][n + p] == s[l] && s[i..][n + p + 1..] == s[l + 1..];
    assert s[i..][n - 1] == s[i + n - 1] && s[i..][n..n + p] == s[i + n..l];
  }

  /** The suffix of `s` matching the key pattern, scanning start positions from `i`. */
  function FindKey(s: string, i: nat): (r: Option<string>)
    requires i <= |s|
    ensures r.Some? ==> exists j :: i <= j <= |s| && r.value == s[j..] && IsKey(s[j..])
    ensures r.None? ==> forall j :: i <= j <= |s| ==> !IsKey(s[j..])
    decreases |s| - i
  {
    if IsKey(s[i..]) then Some(s[i..])
    else if i == |s| then None
    else
      var r := FindKey(s, i + 1);
      assert r.None? ==> forall j :: i <= j <= |s| ==> !IsKey(s[j..]) by {
        if r.None? {
          forall j | i < j <= |s|
            ensures !IsKey(s[j..])
          {
          }
        }
      }
      r
  }

  predicate IsSuffixOf(k: string, s: string)
  {
    |k| <= |s| && s[|s| - |k|..] == k
  }

  /** The key of a path: the tail of the normalised path that matches the key pattern,
      or `None` when there is no such tail. */
  function KeyOf(path: string): (r: Option<string>)
    ensures r.Some? ==> IsKey(r.value) && IsSuffixOf(r.value, Normalize(path))
    ensures r.None? ==> forall j :: 0 <= j <= |path| ==> !IsKey(Normalize(path)[j..])
  {
    FindKey(Normalize(path), 0)
  }

  /** `k` is the key of `path` exactly when it is a key and a tail of the normalised path. */
  lemma {:induction false} KeyOfIff(path: string, k: string)
    ensures KeyOf(path) == Some(k) <==> IsKey(k) && IsSuffixOf(k, Normalize(path))
  {
    if IsKey(k) && IsSuffixOf(k, Normalize(path)) {
      KeyOfComplete(path, k);
    }
  }

  /** Any key-shaped tail of the normalised path is the one the scan finds. */
  lemma {:induction false} KeyOfComplete(path: string, k: string)
    requires IsKey(k) && IsSuffixOf(k, Normalize(path))
    ensures KeyOf(path) == Some(k)
  {
    var n := Normalize(path);
    var j := |n| - |k|;
    assert n[j..] == k;
    var r := FindKey(n, 0);
    assert r.Some?;
    var j' :| 0 <= j' <= |n| && r.value == n[j'..] && IsKey(n[j'..]);
    if j <= j' { KeySuffixUnique(n, j, j'); } else { KeySuffixUnique(n, j', j); }
  }

  /** Backslash and slash spellings of a path have the same key. */
  lemma KeyOfNormalized(path: string)
    ensures KeyOf(Normalize(path)) == KeyOf(path)
  {
    NormalizeIdempotent(path);
  }

  predicate NoBackslash(s: string)
  {
    forall i :: 0 <= i < |s| ==> s[i] != '\\'
  }

  lemma NormalizeAppend(a: string, b: string)
    ensures Normalize(a + b) == Normalize(a) + Normalize(b)
  {
    var l, r := Normalize(a + b), Normalize(a) + Normalize(b);
    forall i | 0 <= i < |l|
      ensures l[i] == r[i]
    {
      if i < |a| {
        assert (a + b)[i] == a[i];
      } else {
        assert (a + b)[i] == b[i - |a|];
      }
    }
  }

  lemma NormalizeNoBackslash(s: string)
    requires NoBackslash(s)
    ensures Normalize(s) == s
  {
  }

  /** The tail `cypress?e2e?<dir>?<name>.cy.ts` with the given separators. */
  function Spelled(s1: char, s2: char, s3: char, dir: string, name: string): string
  {
    "cypress" + [s1] + "e2e" + [s2] + dir + [s3] + name + KeyExtension
  }

  lemma NormalizeSpelled(s1: char, s2: char, s3: char, dir: string, name: string)
    requires s1 in "/\\" && s2 in "/\\" && s3 in "/\\"
    requires NoBackslash(dir) && NoBackslash(name)
    ensures Normalize(Spelled(s1, s2, s3, dir, name)) == MakeKey(dir, name)
  {
    var c := "cypress" + [s1] + "e2e" + [s2];
    var e := c + dir + [s3];
    NormalizeSpelledPrefix(s1, s2);
    NormalizeNoBackslash(dir);
    NormalizeAppend(c, dir);
    NormalizeAppend(c + dir, [s3]);
    assert Normalize([s3]) == "/";
    NormalizeNoBackslash(name);
    NormalizeAppend(e, name);
    NormalizeNoBackslash(KeyExtension);
    NormalizeAppend(e + name, KeyExtension);
  }

  /** The first two separators of a spelled key both become slashes. */
  lemma NormalizeSpelledPrefix(s1: char, s2: char)
    requires s1 in "/\\" && s2 in "/\\"
    ensures Normalize("cypress" + [s1] + "e2e" + [s2]) == KeyPrefix
  {
    var x := "cypress" + [s1] + "e2e" + [s2];
    assert x == ['c', 'y', 'p', 'r', 'e', 's', 's', s1, 'e', '2', 'e', s2];
    assert KeyPrefix == ['c', 'y', 'p', 'r', 'e', 's', 's', '/', 'e', '2', 'e', '/'];
  }

  /** Whichever separator a path uses, and whatever precedes the test directory, its key
      is `cypress/e2e/<dir>/<name>.cy.ts`. */
  lemma KeyOfAnySeparator(p: string, s1: char, s2: char, s3: char, dir: string, name: string)
    requires s1 in "/\\" && s2 in "/\\" && s3 in "/\\"
    requires dir != [] && name != []
    requires NoSlash(dir) && NoSlash(name) && NoBackslash(dir) && NoBackslash(name)
    ensures KeyOf(p + Spelled(s1, s2, s3, dir, name)) == Some(MakeKey(dir, name))
  {
    var t := Spelled(s1, s2, s3, dir, name);
    var k := MakeKey(dir, name);
    NormalizeSpelled(s1, s2, s3, dir, name);
    NormalizeAppend(p, t);
    MakeKeyIsKey(dir, name);
    var n := Normalize(p + t);
    assert n[|n| - |k|..] == k;
    KeyOfIff(p + t, k);
  }
}

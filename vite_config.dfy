/** The `manualChunks` hook of the bundler configuration: a module id under
    `node_modules/` is put in a chunk named after the first path segment
    behind the first `node_modules/`. */
module ViteConfig {
  import opened Records

  /** What the hook returns: nothing (undefined), a chunk name, or a thrown
      TypeError. */
  datatype ChunkChoice = NoChunk | ChunkName(name: string) | Crash

  const Dir: string := "node_modules"
  const Marker: string := "node_modules/"

  ghost predicate OccursAt(s: string, pat: string, k: int) {
    0 <= k && k + |pat| <= |s| && s[k..k + |pat|] == pat
  }

  ghost predicate Contains(s: string, pat: string) {
    exists k :: OccursAt(s, pat, k)
  }

  lemma OccursAtShift(s: string, pat: string, k: nat)
    requires |s| > 0
    ensures OccursAt(s[1..], pat, k) <==> OccursAt(s, pat, k + 1)
  {
    if k + |pat| <= |s[1..]| {
      assert s[1..][k..k + |pat|] == s[k + 1..k + 1 + |pat|];
    }
  }

  /** `s.indexOf(pat)`: the first position where `pat` occurs, if any. */
  function IndexOf(s: string, pat: string): (r: Option<nat>)
    ensures r.Some? ==> OccursAt(s, pat, r.value)
    ensures r.Some? ==> forall k :: 0 <= k < r.value ==> !OccursAt(s, pat, k)
    ensures r.None? <==> !Contains(s, pat)
    decreases |s|
  {
    if |s| < |pat| then None
    else if s[..|pat|] == pat then
      assert OccursAt(s, pat, 0);
      Some(0)
    else
      assert !OccursAt(s, pat, 0);
      match IndexOf(s[1..], pat)
      case None =>
        assert forall k :: !OccursAt(s, pat, k) by {
          forall k ensures !OccursAt(s, pat, k) {
            if k > 0 { OccursAtShift(s, pat, k - 1); }
          }
        }
        None
      case Some(j) =>
        OccursAtShift(s, pat, j);
        assert forall k :: 0 < k < j + 1 ==> !OccursAt(s, pat, k) by {
          forall k | 0 < k < j + 1 ensures !OccursAt(s, pat, k) {
            OccursAtShift(s, pat, k - 1);
          }
        }
        Some(j + 1)
  }

  /** The text of `s` up to the first occurrence of `sep`, or all of it. */
  function UpTo(s: string, sep: string): (r: string)
    ensures r <= s
    ensures |r| == |s| || OccursAt(s, sep, |r|)
    ensures forall k :: 0 <= k < |r| ==> !OccursAt(s, sep, k)
    ensures |sep| > 0 ==> (|r| == |s| <==> !Contains(s, sep))
  {
    match IndexOf(s, sep)
    case None => s
    case Some(j) => s[..j]
  }

  /** `s.split(sep)[1]`: the text between the first and the second
      occurrence of `sep` (or the end); None (undefined) when `sep` does not
      occur. */
  function SecondPiece(s: string, sep: string): (r: Option<string>)
    requires |sep| > 0
    ensures r.None? <==> !Contains(s, sep)
    ensures r.Some? ==> exists i :: OccursAt(s, sep, i) && (forall k :: 0 <= k < i ==> !OccursAt(s, sep, k))
                                    && r.value == UpTo(s[i + |sep|..], sep)
  {
    match IndexOf(s, sep)
    case None => None
    case Some(i) =>
      PieceAfter(s, sep, i);
      Some(UpTo(s[i + |sep|..], sep))
  }

  /** The text after the first occurrence of `sep` at `i`, up to the next. */
  lemma PieceAfter(s: string, sep: string, i: nat)
    requires OccursAt(s, sep, i) && forall k :: 0 <= k < i ==> !OccursAt(s, sep, k)
    ensures exists j :: OccursAt(s, sep, j) && (forall k :: 0 <= k < j ==> !OccursAt(s, sep, k))
                        && UpTo(s[i + |sep|..], sep) == UpTo(s[j + |sep|..], sep)
  {
  }

  /** `s.split('/')[0]`: the text before the first `/`. */
  function BeforeSlash(s: string): (r: string)
    ensures '/' !in r
    ensures r <= s
    ensures |r| < |s| ==> s[|r|] == '/'
  {
    if s == [] || s[0] == '/' then []
    else [s[0]] + BeforeSlash(s[1..])
  }

  /** The hook: no chunk for an id without `node_modules`; otherwise the
      first `/`-segment of the text after the first `node_modules/`, which
      throws when `node_modules` never occurs followed by `/`. */
  function ManualChunks(id: string): (r: ChunkChoice)
    ensures r == NoChunk <==> !Contains(id, Dir)
    ensures r == Crash <==> Contains(id, Dir) && !Contains(id, Marker)
    ensures r.ChunkName? ==> '/' !in r.name
  {
    if IndexOf(id, Dir).None? then NoChunk
    else
      match SecondPiece(id, Marker)
      case None => Crash
      case Some(piece) =>
        MarkerContainsDir(id);
        ChunkName(BeforeSlash(piece))
  }

  /** Every `node_modules/` is also a `node_modules`. */
  lemma MarkerContainsDir(id: string)
    ensures Contains(id, Marker) ==> Contains(id, Dir)
  {
    if Contains(id, Marker) {
      var k :| OccursAt(id, Marker, k);
      assert id[k..k + |Dir|] == id[k..k + |Marker|][..|Dir|];
      assert OccursAt(id, Dir, k);
    }
  }

  /** The chunk name is the longest `/`-free prefix of the text after the
      first `node_modules/`, cut short also by a following `node_modules/`. */
  lemma ChunkAfterFirstMarker(id: string, i: nat)
    requires OccursAt(id, Marker, i)
    requires forall k :: 0 <= k < i ==> !OccursAt(id, Marker, k)
    ensures ManualChunks(id).ChunkName?
    ensures var n := ManualChunks(id).name;
            var rest := id[i + |Marker|..];
            && n <= rest
            && '/' !in n
            && (|n| == |rest| || rest[|n|] == '/' || OccursAt(rest, Marker, |n|))
            && (forall k :: 0 <= k < |n| ==> !OccursAt(rest, Marker, k))
  {
    MarkerContainsDir(id);
    var rest := id[i + |Marker|..];
    assert IndexOf(id, Marker) == Some(i);
    var piece := UpTo(rest, Marker);
    assert SecondPiece(id, Marker) == Some(piece);
    var n := BeforeSlash(piece);
    assert ManualChunks(id) == ChunkName(n);
    if |n| < |piece| {
      assert rest[|n|] == piece[|n|];
    }
  }

  /** No character of `node_modules/` but the first is an `n`, and only the
      last is a `/`. */
  lemma MarkerLetters()
    ensures forall d :: 1 <= d < |Marker| ==> Marker[d] != 'n'
    ensures forall d :: 0 <= d < |Dir| ==> Marker[d] != '/'
  {
  }

  /** `s.split('/')[0]` of a `/`-free segment followed by `/`. */
  lemma {:induction false} BeforeSlashOfSegment(seg: string, tail: string)
    requires '/' !in seg
    ensures BeforeSlash(seg + "/" + tail) == seg
  {
    if seg != [] {
      assert (seg + "/" + tail)[1..] == seg[1..] + "/" + tail;
      BeforeSlashOfSegment(seg[1..], tail);
    } else {
      assert seg + "/" + tail == "/" + tail;
    }
  }

  /** With no `node_modules/` inside `pre`, none starts inside `pre` in
      `pre + node_modules/ + tail` either: only the first letter of the
      marker is an `n`. */
  lemma FirstMarkerAfter(pre: string, tail: string)
    requires !Contains(pre, Marker)
    ensures IndexOf(pre + Marker + tail, Marker) == Some(|pre|)
  {
    var id := pre + Marker + tail;
    var p := |pre|;
    assert id[p..p + |Marker|] == Marker;
    assert OccursAt(id, Marker, p);
    MarkerLetters();
    forall k | 0 <= k < p ensures !OccursAt(id, Marker, k) {
      if k + |Marker| <= p {
        assert id[k..k + |Marker|] == pre[k..k + |Marker|];
        assert !OccursAt(pre, Marker, k);
      } else {
        assert id[k..k + |Marker|][p - k] == id[p] == Marker[0];
        assert Marker[p - k] != 'n';
      }
    }
  }

  /** A segment whose last letters spell `node_modules`. */
  predicate EndsWithDir(seg: string) {
    |seg| >= |Dir| && seg[|seg| - |Dir|..] == Dir
  }

  /** The chunk a `/`-free package segment goes to: the segment, less a
      trailing `node_modules`, which together with the following `/` is a
      second `node_modules/`. */
  function SegmentName(seg: string): string {
    if EndsWithDir(seg) then seg[..|seg| - |Dir|] else seg
  }

  /** In `seg + / + post` no `node_modules/` starts within `seg` or at its
      end, when `seg` is `/`-free and does not end in `node_modules`. */
  lemma NoMarkerInSegment(seg: string, post: string)
    requires '/' !in seg && !EndsWithDir(seg)
    ensures forall j :: 0 <= j <= |seg| ==> !OccursAt(seg + "/" + post, Marker, j)
  {
    var rest := seg + "/" + post;
    MarkerLetters();
    forall j | 0 <= j <= |seg| ensures !OccursAt(rest, Marker, j) {
      if j + |Marker| <= |rest| {
        var w := rest[j..j + |Marker|];
        if j + |Dir| < |seg| {
          assert w[|Dir|] == seg[j + |Dir|];
          assert seg[j + |Dir|] in seg;
          assert Marker[|Dir|] == '/';
        } else if j + |Dir| == |seg| {
          assert w[..|Dir|] == seg[j..];
          assert Marker[..|Dir|] == Dir;
        } else {
          assert w[|seg| - j] == rest[|seg|] == '/';
          assert Marker[|seg| - j] != '/';
        }
      }
    }
  }

  /** A package path `pre/node_modules/seg/post`, with no earlier
      `node_modules/` and a `/`-free package segment, goes to the chunk of
      the segment, whatever follows it. */
  lemma SegmentChunk(pre: string, seg: string, post: string)
    requires !Contains(pre, Marker)
    requires '/' !in seg
    ensures ManualChunks(pre + Marker + seg + "/" + post) == ChunkName(SegmentName(seg))
  {
    var id := pre + Marker + seg + "/" + post;
    if EndsWithDir(seg) {
      var q := seg[..|seg| - |Dir|];
      assert seg == q + Dir;
      assert '/' !in q by { assert forall c :: c in q ==> c in seg; }
      assert id == pre + Marker + q + Marker + post;
      NextMarkerEndsChunk(pre, q, post);
    } else {
      assert id == pre + Marker + (seg + "/" + post);
      FirstMarkerAfter(pre, seg + "/" + post);
      MarkerContainsDir(id);
      var rest := id[|pre| + |Marker|..];
      assert rest == seg + "/" + post;
      NoMarkerInSegment(seg, post);
      match IndexOf(rest, Marker)
      case None =>
        BeforeSlashOfSegment(seg, post);
      case Some(j) =>
        assert rest[..j] == seg + "/" + post[..j - |seg| - 1];
        BeforeSlashOfSegment(seg, post[..j - |seg| - 1]);
    }
  }

  /** A package segment free of `node_modules` is its own chunk name. */
  lemma PackageChunk(pre: string, seg: string, post: string)
    requires !Contains(pre, Marker)
    requires '/' !in seg && !Contains(seg, Dir)
    ensures ManualChunks(pre + Marker + seg + "/" + post) == ChunkName(seg)
  {
    assert !EndsWithDir(seg) by {
      assert |seg| >= |Dir| ==> !OccursAt(seg, Dir, |seg| - |Dir|);
    }
    SegmentChunk(pre, seg, post);
  }

  /** A scoped package `pre/node_modules/@scope/pkg/...` goes to the chunk
      of its scope, `@scope`, unless the scope ends in `node_modules`. */
  lemma ScopedPackageChunk(pre: string, scope: string, pkgPath: string)
    requires !Contains(pre, Marker)
    requires '/' !in scope && !EndsWithDir("@" + scope)
    ensures ManualChunks(pre + Marker + "@" + scope + "/" + pkgPath) == ChunkName("@" + scope)
  {
    assert pre + Marker + "@" + scope + "/" + pkgPath == pre + Marker + ("@" + scope) + "/" + pkgPath;
    SegmentChunk(pre, "@" + scope, pkgPath);
  }

  /** Files of the same package land in the same chunk. */
  lemma SamePackageSameChunk(pre: string, seg: string, post1: string, post2: string)
    requires !Contains(pre, Marker)
    requires '/' !in seg
    ensures ManualChunks(pre + Marker + seg + "/" + post1) == ManualChunks(pre + Marker + seg + "/" + post2)
  {
    SegmentChunk(pre, seg, post1);
    SegmentChunk(pre, seg, post2);
  }

  /** `node_modules/` ends in `/`, so a `/`-free text does not contain it. */
  lemma SlashFreeHasNoMarker(seg: string)
    requires '/' !in seg
    ensures !Contains(seg, Marker)
  {
    forall k | 0 <= k && k + |Marker| <= |seg| ensures !OccursAt(seg, Marker, k) {
      assert seg[k..k + |Marker|][|Marker| - 1] == seg[k + |Marker| - 1];
      assert seg[k + |Marker| - 1] in seg;
    }
  }

  /** The segment is cut by a second `node_modules/` as well as by `/`:
      `node_modules/xnode_modules/y` goes to chunk `x`, not `xnode_modules`. */
  lemma NextMarkerEndsChunk(pre: string, seg: string, post: string)
    requires !Contains(pre, Marker)
    requires '/' !in seg
    ensures ManualChunks(pre + Marker + seg + Marker + post) == ChunkName(seg)
  {
    var id := pre + Marker + seg + Marker + post;
    assert id == pre + Marker + (seg + Marker + post);
    FirstMarkerAfter(pre, seg + Marker + post);
    MarkerContainsDir(id);
    var rest := id[|pre| + |Marker|..];
    assert rest == seg + Marker + post;
    SlashFreeHasNoMarker(seg);
    FirstMarkerAfter(seg, post);
    assert UpTo(rest, Marker) == rest[..|seg|] == seg;
    assert SecondPiece(id, Marker) == Some(seg);
    var n := BeforeSlash(seg);
    assert forall i :: 0 <= i < |seg| ==> seg[i] != '/';
    assert n == seg;
  }
}

/** Detecting that two modified field paths overlap or go through the same oneof.
    The detector works on the text of the paths; what it reports is real as far as
    the text determines the path.
 */
module FieldPathConflicts {
  import opened Types

  /** Field names from the outside in. */
  type FieldPath = seq<string>

  // ----- Rendered paths -----

  /** The path as text, with dots between the names. */
  function Render(p: FieldPath): string {
    if p == [] then "" else if |p| == 1 then p[0] else p[0] + "." + Render(p[1..])
  }

  /** The path as text, with a dot after each name. */
  function Dotted(p: FieldPath): string {
    if p == [] then "" else p[0] + "." + Dotted(p[1..])
  }

  /** The text `t` is `s`, or continues it after a dot. */
  predicate Covers(s: string, t: string) {
    s == t || s + "." <= t
  }

  /** After the same beginning, one path has a name that continues the other's past a
      dot: such a name reads like a longer path. */
  ghost predicate Clash(p: FieldPath, q: FieldPath) {
    exists k :: ClashAt(p, q, k)
  }

  ghost predicate ClashAt(p: FieldPath, q: FieldPath, k: nat) {
    && k < |p| && k < |q| && p[..k] == q[..k]
    && (p[k] + "." <= q[k] || q[k] + "." <= p[k])
  }

  lemma {:induction false} RenderDotted(p: FieldPath)
    requires p != []
    ensures Render(p) + "." == Dotted(p)
    decreases |p|
  {
    if |p| == 1 {
      assert p[1..] == [];
    } else {
      RenderDotted(p[1..]);
      assert p[0] + "." + Render(p[1..]) + "." == p[0] + "." + (Render(p[1..]) + ".");
    }
  }

  lemma CoversDotted(s: string, t: string)
    ensures Covers(s, t) <==> s + "." <= t + "."
  {
    if s + "." <= t + "." {
      if |s| < |t| {
        assert (t + ".")[..|s| + 1] == t[..|s| + 1];
      } else {
        assert (t + ".")[..|s|] == t && (s + ".")[..|s|] == s;
      }
    }
    if s + "." <= t {
      assert t <= t + ".";
    }
  }

  lemma CoversTransitive(s: string, t: string, u: string)
    requires Covers(s, t) && Covers(t, u)
    ensures Covers(s, u)
  {
    CoversDotted(s, t);
    CoversDotted(t, u);
    CoversDotted(s, u);
  }

  /** Without a clash, the first names of dotted texts are the same. */
  lemma FirstNames(c: string, d: string, s: string, t: string)
    requires c + "." + s <= d + "." + t && !(c + "." <= d) && !(d + "." <= c)
    ensures c == d && s <= t
  {
    FirstLengths(c, d, s, t);
    var whole, part := d + "." + t, c + "." + s;
    assert part[..|c|] == c && whole[..|d|] == d;
    assert part[|c| + 1..] == s && whole[|d| + 1..] == t;
  }

  lemma FirstLengths(c: string, d: string, s: string, t: string)
    requires c + "." + s <= d + "." + t
    ensures |c| < |d| ==> c + "." <= d
    ensures |d| < |c| ==> d + "." <= c
  {
    var whole, part := d + "." + t, c + "." + s;
    if |c| < |d| {
      assert part[..|c| + 1] == c + "." && whole[..|c| + 1] == d[..|c| + 1];
    }
    if |d| < |c| {
      assert part[..|d| + 1] == c[..|d| + 1] && whole[..|d| + 1] == d + ".";
    }
  }

  lemma {:induction false} DottedPrefix(p: FieldPath, q: FieldPath)
    ensures p <= q ==> Dotted(p) <= Dotted(q)
    ensures Dotted(p) <= Dotted(q) && !Clash(p, q) ==> p <= q
    decreases |p|
  {
    if p != [] && q != [] {
      var c, d, p', q' := p[0], q[0], p[1..], q[1..];
      DottedPrefix(p', q');
      if p <= q {
        assert c == d && p' <= q';
        PrefixUnder(c + ".", Dotted(p'), Dotted(q'));
      }
      if Dotted(p) <= Dotted(q) && !Clash(p, q) {
        assert !ClashAt(p, q, 0);
        FirstNames(c, d, Dotted(p'), Dotted(q'));
        NoClashAfter(p, q);
        assert p == [c] + p' && q == [d] + q';
      }
    }
  }

  lemma PrefixUnder(c: string, s: string, t: string)
    requires s <= t
    ensures c + s <= c + t
  {
    assert t == s + t[|s|..];
    assert c + t == (c + s) + t[|s|..];
  }

  lemma NoClashAfter(p: FieldPath, q: FieldPath)
    requires p != [] && q != [] && p[0] == q[0] && !Clash(p, q)
    ensures !Clash(p[1..], q[1..])
  {
    if k: nat :| ClashAt(p[1..], q[1..], k) {
      assert p[..k + 1] == [p[0]] + p[1..][..k] && q[..k + 1] == [q[0]] + q[1..][..k];
      assert ClashAt(p, q, k + 1);
    }
  }

  lemma NoClashInPrefix(p: FieldPath, q: FieldPath)
    requires p <= q
    ensures !Clash(p, q)
  {
    forall k: nat | k < |p|
      ensures !ClashAt(p, q, k)
    {
      assert p[k] == q[k];
    }
  }

  /** The names of a path start another exactly when its text covers the other's and
      no name reads like a longer path. */
  lemma TextIsPath(p: FieldPath, q: FieldPath)
    requires p != [] && q != []
    ensures p <= q <==> Covers(Render(p), Render(q)) && !Clash(p, q)
    ensures p == q <==> Render(p) == Render(q) && !Clash(p, q)
  {
    hide Render, Clash;
    RenderDotted(p);
    RenderDotted(q);
    CoversDotted(Render(p), Render(q));
    CoversDotted(Render(q), Render(p));
    DottedPrefix(p, q);
    DottedPrefix(q, p);
    if p <= q {
      NoClashInPrefix(p, q);
    }
    if Render(p) == Render(q) && !Clash(p, q) {
      ClashSymmetric(p, q);
      assert p <= q && q <= p;
    }
  }

  lemma ClashSymmetric(p: FieldPath, q: FieldPath)
    ensures Clash(p, q) <==> Clash(q, p)
  {
    if k: nat :| ClashAt(p, q, k) {
      assert ClashAt(q, p, k);
    }
    if k: nat :| ClashAt(q, p, k) {
      assert ClashAt(p, q, k);
    }
  }

  // ----- Names without dots -----

  predicate PlainName(c: string) {
    c != "" && '.' !in c && '(' !in c
  }

  /** The name of an extension field: its full name in parentheses. */
  predicate ExtensionName(c: string) {
    |c| >= 2 && c[0] == '(' && c[|c| - 1] == ')' && ')' !in c[..|c| - 1]
  }

  predicate Component(c: string) {
    PlainName(c) || ExtensionName(c)
  }

  predicate WellFormed(p: FieldPath) {
    forall i :: 0 <= i < |p| ==> Component(p[i])
  }

  /** No such name continues another after a dot. */
  lemma NamesSolid(c: string, d: string)
    requires Component(c) && Component(d)
    ensures !(c + "." <= d)
  {
    assert forall i :: 0 <= i < |d| ==> d[i] in d;
    assert c[0] in c;
    assert ExtensionName(d) ==> forall i :: 0 <= i < |d| - 1 ==> d[i] != ')' by {
      assert forall i :: 0 <= i < |d| - 1 ==> d[..|d| - 1][i] == d[i];
    }
    if c + "." <= d {
      DotAfter(c, d);
    }
  }

  lemma DotAfter(c: string, d: string)
    requires c != "" && c + "." <= d
    ensures |c| < |d| && d[|c|] == '.' && d[0] == c[0] && d[|c| - 1] == c[|c| - 1]
  {
    assert d[|c|] == (c + ".")[|c|];
  }

  /** Paths of plain and extension names never clash. */
  lemma WellFormedNoClash(p: FieldPath, q: FieldPath)
    requires WellFormed(p) && WellFormed(q)
    ensures !Clash(p, q)
  {
    hide Component;
    forall k: nat | k < |p| && k < |q|
      ensures !ClashAt(p, q, k)
    {
      NamesSolid(p[k], q[k]);
      NamesSolid(q[k], p[k]);
    }
  }

  // ----- The search on texts -----

  ghost predicate TextOverlap(s: string, t: string) {
    Covers(s, t) || Covers(t, s)
  }

  ghost predicate TextAntichain(trie: set<string>) {
    forall s, t :: s in trie && t in trie && s != t ==> !TextOverlap(s, t)
  }

  /** A stored text that is a prefix of `x`. */
  ghost predicate HasPrefix(trie: set<string>, x: string) {
    exists s :: s in trie && s <= x
  }

  /** A stored text that continues `x` after a dot. */
  ghost predicate HasExtension(trie: set<string>, x: string) {
    exists s :: s in trie && x + "." <= s
  }

  ghost predicate HasOverlap(trie: set<string>, x: string) {
    exists s :: s in trie && TextOverlap(s, x)
  }

  ghost predicate Longest(trie: set<string>, x: string, s: string) {
    s <= x && forall t :: t in trie && t <= x ==> |t| <= |s|
  }

  /** What the search finds: the longest stored prefix of `x` decides, and only if there
      is none, the texts that continue `x` are searched. */
  ghost predicate Detected(trie: set<string>, x: string) {
    if HasPrefix(trie, x) then exists s :: s in trie && Covers(s, x) && Longest(trie, x, s)
    else HasExtension(trie, x)
  }

  /** A text that continues `x` hides behind one that is a prefix of `x`. */
  ghost predicate Hides(trie: set<string>, x: string) {
    HasPrefix(trie, x) && HasExtension(trie, x)
  }

  /** A text is a prefix of another, but not at a dot. */
  ghost predicate Loose(s: string, t: string) {
    s <= t && !Covers(s, t)
  }

  ghost predicate HasLoose(trie: set<string>) {
    exists s, t :: s in trie && t in trie && Loose(s, t)
  }

  /** A longer prefix of `x` than one that covers it is covered too. */
  lemma LongerPrefix(s: string, t: string, x: string)
    requires Covers(s, x) && t <= x && |t| > |s|
    ensures s + "." <= t
  {
    assert x[..|s| + 1] == t[..|s| + 1];
    assert s + "." == x[..|s| + 1];
  }

  /** Among texts that do not overlap, one that covers `x` is the longest prefix. */
  lemma CoveringIsLongest(trie: set<string>, x: string, s: string)
    requires TextAntichain(trie) && s in trie && Covers(s, x)
    ensures s <= x && Longest(trie, x, s)
  {
    assert s <= s + ".";
    forall t | t in trie && t <= x
      ensures |t| <= |s|
    {
      assert s != t ==> !TextOverlap(s, t);
      if |t| > |s| {
        LongerPrefix(s, t, x);
      }
    }
  }

  /** Whatever the search finds overlaps. On texts that do not overlap it misses an
      overlap exactly when the text that continues `x` hides. */
  lemma DetectedIffOverlap(trie: set<string>, x: string)
    ensures Detected(trie, x) ==> HasOverlap(trie, x)
    ensures TextAntichain(trie) ==> (HasOverlap(trie, x) && !Detected(trie, x) <==> Hides(trie, x))
  {
    if Detected(trie, x) {
      DetectedOverlaps(trie, x);
    }
    if TextAntichain(trie) {
      if s :| s in trie && TextOverlap(s, x) {
        if Covers(s, x) {
          CoveringIsLongest(trie, x, s);
          NotHidden(trie, x, s);
        } else {
          assert x + "." <= s;
        }
      }
      if Hides(trie, x) {
        HiddenMissed(trie, x);
      }
    }
  }

  lemma DetectedOverlaps(trie: set<string>, x: string)
    requires Detected(trie, x)
    ensures HasOverlap(trie, x)
  {
    if HasPrefix(trie, x) {
      var s :| s in trie && Covers(s, x) && Longest(trie, x, s);
      assert TextOverlap(s, x);
    } else {
      var s :| s in trie && x + "." <= s;
      assert TextOverlap(s, x);
    }
  }

  lemma NotHidden(trie: set<string>, x: string, s: string)
    requires TextAntichain(trie) && s in trie && Covers(s, x)
    ensures !HasExtension(trie, x)
  {
    forall t | t in trie
      ensures !(x + "." <= t)
    {
      if x + "." <= t {
        CoversTransitive(s, x, t);
        assert |s| <= |x| < |t|;
        assert TextOverlap(s, t);
      }
    }
  }

  lemma HiddenMissed(trie: set<string>, x: string)
    requires TextAntichain(trie) && Hides(trie, x)
    ensures HasOverlap(trie, x) && !Detected(trie, x)
  {
    var t :| t in trie && x + "." <= t;
    assert TextOverlap(t, x);
    forall s | s in trie && Covers(s, x)
      ensures false
    {
      NotHidden(trie, x, s);
    }
  }

  /** A text that the search lets through keeps the texts free of overlaps exactly when
      they were and none that continues it hides; if one hides, some text is a prefix of
      another away from a dot. */
  lemma AntichainStep(trie: set<string>, x: string)
    requires !Detected(trie, x)
    ensures TextAntichain(trie + {x}) <==> TextAntichain(trie) && !Hides(trie, x)
    ensures TextAntichain(trie) && Hides(trie, x) ==> HasLoose(trie + {x})
  {
    hide Detected, Covers;
    DetectedIffOverlap(trie, x);
    var more := trie + {x};
    if TextAntichain(more) {
      assert forall s :: s in trie ==> s in more;
      assert x !in trie by { StoredDetected(trie, x); }
      assert x in more;
      assert !HasOverlap(trie, x);
    }
    if TextAntichain(trie) && Hides(trie, x) {
      HiddenLoose(trie, x);
    }
    if TextAntichain(trie) && !Hides(trie, x) {
      assert !HasOverlap(trie, x);
      forall s, t | s in more && t in more && s != t
        ensures !TextOverlap(s, t)
      {
        if t == x { assert !TextOverlap(s, x); } else if s == x { assert !TextOverlap(t, x); }
      }
    }
  }

  lemma StoredDetected(trie: set<string>, x: string)
    ensures x in trie ==> Detected(trie, x)
  {
    if x in trie {
      assert x <= x;
      assert Longest(trie, x, x);
    }
  }

  lemma HiddenLoose(trie: set<string>, x: string)
    requires TextAntichain(trie) && Hides(trie, x)
    ensures HasLoose(trie + {x})
  {
    hide Covers;
    var s :| s in trie && s <= x;
    if Covers(s, x) {
      NotHidden(trie, x, s);
    } else {
      assert Loose(s, x) && s in trie + {x} && x in trie + {x};
    }
  }

  // ----- Overlaps of paths -----

  ghost predicate Overlap(p: FieldPath, q: FieldPath) {
    p <= q || q <= p
  }

  ghost predicate Antichain(paths: set<FieldPath>) {
    forall p, q :: p in paths && q in paths && p != q ==> !Overlap(p, q)
  }

  /** No name of a path reads like a longer path beside another. */
  ghost predicate NoClashes(paths: set<FieldPath>) {
    forall p, q :: p in paths && q in paths ==> !Clash(p, q)
  }

  /** The texts of the accepted paths. */
  ghost predicate Texts(trie: set<string>, paths: set<FieldPath>) {
    && (forall p :: p in paths ==> p != [] && Render(p) in trie)
    && (forall s :: s in trie ==> TextOf(s, paths))
  }

  ghost predicate TextOf(s: string, paths: set<FieldPath>) {
    exists p :: p in paths && Render(p) == s
  }

  /** Paths overlap exactly when their texts do and no name reads like a longer path. */
  lemma OverlapIff(p: FieldPath, q: FieldPath)
    requires p != [] && q != []
    ensures Overlap(p, q) <==> TextOverlap(Render(p), Render(q)) && !Clash(p, q)
  {
    hide Render, Covers, Clash;
    TextIsPath(p, q);
    TextIsPath(q, p);
    ClashSymmetric(p, q);
  }

  /** Paths whose texts do not overlap do not overlap, and the other way round when no
      name reads like a longer path. */
  lemma AntichainIff(trie: set<string>, paths: set<FieldPath>)
    requires Texts(trie, paths)
    ensures TextAntichain(trie) ==> Antichain(paths)
    ensures NoClashes(paths) ==> (Antichain(paths) <==> TextAntichain(trie))
  {
    hide Render, Covers, Clash, Overlap, TextOverlap;
    if TextAntichain(trie) {
      forall p, q | p in paths && q in paths && p != q
        ensures !Overlap(p, q)
      {
        OverlapIff(p, q);
        TextIsPath(p, q);
      }
    }
    if NoClashes(paths) && Antichain(paths) {
      forall s, t | s in trie && t in trie && s != t
        ensures !TextOverlap(s, t)
      {
        assert TextOf(s, paths) && TextOf(t, paths);
        var p :| p in paths && Render(p) == s;
        var q :| q in paths && Render(q) == t;
        OverlapIff(p, q);
      }
    }
  }

  // ----- Oneofs -----

  /** The oneof that the last field of a path belongs to, if any. */
  type Oneofs = FieldPath -> Option<string>

  function OneofAt(oneofOf: Oneofs, p: FieldPath, i: nat): Option<string>
    requires i < |p|
  {
    oneofOf(p[..i + 1])
  }

  /** Two paths go through the same oneof: up to some depth they are the same, and
      their next fields belong to one oneof. */
  ghost predicate SharesOneof(oneofOf: Oneofs, p: FieldPath, q: FieldPath) {
    exists k :: SharesAt(oneofOf, p, q, k)
  }

  ghost predicate SharesAt(oneofOf: Oneofs, p: FieldPath, q: FieldPath, k: nat) {
    && k < |p| && k < |q| && p[..k] == q[..k]
    && OneofAt(oneofOf, p, k).Some? && OneofAt(oneofOf, p, k) == OneofAt(oneofOf, q, k)
  }

  /** The first position below `n` whose field belongs to a oneof. */
  function Outermost(oneofOf: Oneofs, p: FieldPath, n: nat): (k: Option<nat>)
    requires n <= |p|
    ensures k.Some? ==> k.value < n && OneofAt(oneofOf, p, k.value).Some?
    ensures k.Some? ==> forall i :: 0 <= i < k.value ==> OneofAt(oneofOf, p, i).None?
    ensures k.None? ==> forall i :: 0 <= i < n ==> OneofAt(oneofOf, p, i).None?
  {
    if n == 0 then None
    else
      var k := Outermost(oneofOf, p, n - 1);
      if k.Some? then k else if OneofAt(oneofOf, p, n - 1).Some? then Some(n - 1) else None
  }

  /** The outermost oneof of a path: the way to it and its name. */
  function Key(oneofOf: Oneofs, p: FieldPath, n: nat): Option<FieldPath>
    requires n <= |p|
  {
    var k := Outermost(oneofOf, p, n);
    if k.None? then None else Some(p[..k.value] + [OneofAt(oneofOf, p, k.value).value])
  }

  lemma KeyStep(oneofOf: Oneofs, p: FieldPath, n: nat)
    requires n < |p|
    ensures Key(oneofOf, p, n).Some? ==> Key(oneofOf, p, n + 1) == Key(oneofOf, p, n)
    ensures Key(oneofOf, p, n).None? ==>
              Key(oneofOf, p, n + 1) ==
                if OneofAt(oneofOf, p, n).None? then None else Some(p[..n] + [OneofAt(oneofOf, p, n).value])
  {
  }

  /** Comparing the outermost oneofs is enough: two paths go through the same oneof
      at any depth exactly when their outermost oneofs are the same. */
  lemma SharesIffSameKey(oneofOf: Oneofs, p: FieldPath, q: FieldPath)
    ensures SharesOneof(oneofOf, p, q) <==>
            Key(oneofOf, p, |p|).Some? && Key(oneofOf, p, |p|) == Key(oneofOf, q, |q|)
  {
    hide Outermost;
    var i, j := Outermost(oneofOf, p, |p|), Outermost(oneofOf, q, |q|);
    if k :| SharesAt(oneofOf, p, q, k) {
      assert i.Some? && i.value <= k && j.Some? && j.value <= k;
      SameOutermost(oneofOf, p, q, k, i.value, j.value);
    }
    if Key(oneofOf, p, |p|).Some? && Key(oneofOf, p, |p|) == Key(oneofOf, q, |q|) {
      SameKeyShares(oneofOf, p, q, i.value, j.value);
    }
  }

  lemma SameOutermost(oneofOf: Oneofs, p: FieldPath, q: FieldPath, k: nat, i: nat, j: nat)
    requires SharesAt(oneofOf, p, q, k) && i <= k && j <= k
    requires OneofAt(oneofOf, p, i).Some? && forall l :: 0 <= l < i ==> OneofAt(oneofOf, p, l).None?
    requires OneofAt(oneofOf, q, j).Some? && forall l :: 0 <= l < j ==> OneofAt(oneofOf, q, l).None?
    ensures i == j && p[..i] == q[..i] && OneofAt(oneofOf, p, i) == OneofAt(oneofOf, q, i)
  {
    assert p[..i] == p[..k][..i] && q[..j] == q[..k][..j];
    if i < k {
      assert p[..i + 1] == p[..k][..i + 1] == q[..i + 1];
    }
    if j < k {
      assert q[..j + 1] == q[..k][..j + 1] == p[..j + 1];
    }
    assert OneofAt(oneofOf, q, i).Some? && OneofAt(oneofOf, p, j).Some?;
  }

  lemma SameKeyShares(oneofOf: Oneofs, p: FieldPath, q: FieldPath, i: nat, j: nat)
    requires i < |p| && j < |q| && OneofAt(oneofOf, p, i).Some? && OneofAt(oneofOf, q, j).Some?
    requires p[..i] + [OneofAt(oneofOf, p, i).value] == q[..j] + [OneofAt(oneofOf, q, j).value]
    ensures SharesOneof(oneofOf, p, q)
  {
    var a, b := p[..i] + [OneofAt(oneofOf, p, i).value], q[..j] + [OneofAt(oneofOf, q, j).value];
    assert |a| == i + 1 && |b| == j + 1;
    assert a[..i] == p[..i] && b[..j] == q[..j] && a[i] == b[j];
    assert SharesAt(oneofOf, p, q, i);
  }

  // ----- The validator -----

  /** A protobuf field; the name of an extension is its full name. */
  datatype Field = Field(name: string, extension: bool, oneof: Option<string>) {
    function Text(): string {
      if extension then "(" + name + ")" else name
    }
  }

  datatype Outcome =
    | Accepted
    | OneofConflict(path: string, conflicting: string)
    | PathConflict(path: string, conflicting: string)

  function Names(structs: seq<string>, fields: seq<Field>): (p: FieldPath)
    ensures |p| == |structs| + |fields|
    ensures forall i :: 0 <= i < |structs| ==> p[i] == structs[i]
    ensures forall i :: 0 <= i < |fields| ==> p[|structs| + i] == fields[i].Text()
  {
    structs + seq(|fields|, i requires 0 <= i < |fields| => fields[i].Text())
  }

  /** A declared field is rendered as its name, and an extension as one name that holds
      its full name, dots and all. */
  lemma FieldTexts(structs: seq<string>, fields: seq<Field>)
    requires forall i :: 0 <= i < |structs| ==> PlainName(structs[i])
    requires forall i :: 0 <= i < |fields| ==>
               if fields[i].extension then ')' !in fields[i].name else PlainName(fields[i].name)
    ensures WellFormed(Names(structs, fields))
    ensures forall i :: 0 <= i < |fields| ==>
              var t := Names(structs, fields)[|structs| + i];
              if fields[i].extension then ExtensionName(t) && t[1..|t| - 1] == fields[i].name else t == fields[i].name
  {
    hide Names;
    var p := Names(structs, fields);
    forall i | 0 <= i < |fields| && fields[i].extension
      ensures ExtensionName(fields[i].Text()) && fields[i].Text()[1..|fields[i].Text()| - 1] == fields[i].name
    {
      InParentheses(fields[i].name);
    }
    forall k | 0 <= k < |p|
      ensures Component(p[k])
    {
      if k >= |structs| {
        assert p[|structs| + (k - |structs|)] == fields[k - |structs|].Text();
      }
    }
  }

  lemma InParentheses(name: string)
    requires ')' !in name
    ensures var t := "(" + name + ")"; ExtensionName(t) && t[1..|t| - 1] == name
  {
    var t := "(" + name + ")";
    assert t[..|t| - 1] == "(" + name;
  }

  /** The fields are as the schema has them; no name is empty. */
  ghost predicate InSchema(oneofOf: Oneofs, structs: seq<string>, fields: seq<Field>) {
    var p := Names(structs, fields);
    && p != [] && (forall i :: 0 <= i < |p| ==> p[i] != "")
    && (forall i :: 0 <= i < |structs| ==> OneofAt(oneofOf, p, i).None?)
    && (forall i :: 0 <= i < |fields| ==> OneofAt(oneofOf, p, |structs| + i) == fields[i].oneof)
    && (forall i :: 0 <= i < |fields| ==> fields[i].oneof != Some(""))
  }

  /** The text of the outermost oneof of a path, if it has one. */
  ghost function KeyText(oneofOf: Oneofs, p: FieldPath): Option<string> {
    var k := Key(oneofOf, p, |p|);
    if k.None? then None else Some(Render(k.value))
  }

  ghost predicate SameKeyText(oneofOf: Oneofs, p: FieldPath, q: FieldPath) {
    KeyText(oneofOf, p).Some? && KeyText(oneofOf, p) == KeyText(oneofOf, q)
  }

  ghost predicate KeyClash(oneofOf: Oneofs, p: FieldPath, q: FieldPath) {
    var k, l := Key(oneofOf, p, |p|), Key(oneofOf, q, |q|);
    k.Some? && l.Some? && Clash(k.value, l.value)
  }

  /** Two paths go through the same oneof exactly when the texts of their outermost
      oneofs are the same and no name on the way reads like a longer path. */
  lemma SharesIffKeyText(oneofOf: Oneofs, p: FieldPath, q: FieldPath)
    ensures SharesOneof(oneofOf, p, q) <==> SameKeyText(oneofOf, p, q) && !KeyClash(oneofOf, p, q)
  {
    hide Render, Outermost, Clash, SharesOneof;
    SharesIffSameKey(oneofOf, p, q);
    var k, l := Key(oneofOf, p, |p|), Key(oneofOf, q, |q|);
    if k.Some? && l.Some? {
      TextIsPath(k.value, l.value);
    }
  }

  /** Each recorded oneof is the outermost one of an accepted path, and the other way
      round. */
  ghost predicate OneofsOk(oneofOf: Oneofs, oneofs: map<string, string>, paths: set<FieldPath>) {
    && (forall k :: k in oneofs ==> RecordedFor(oneofOf, paths, k, oneofs[k]))
    && (forall p :: p in paths && KeyText(oneofOf, p).Some? ==> KeyText(oneofOf, p).value in oneofs)
  }

  ghost predicate RecordedFor(oneofOf: Oneofs, paths: set<FieldPath>, key: string, text: string) {
    exists p :: p in paths && KeyText(oneofOf, p) == Some(key) && Render(p) == text
  }

  ghost predicate OneofsApart(oneofOf: Oneofs, paths: set<FieldPath>) {
    forall p, q :: p in paths && q in paths && p != q ==> !SharesOneof(oneofOf, p, q)
  }

  ghost predicate HasSameKey(oneofOf: Oneofs, paths: set<FieldPath>, p: FieldPath) {
    exists q :: q in paths && SameKeyText(oneofOf, p, q)
  }

  class ConflictingFieldPathsValidator {
    var oneofs: map<string, string>
    var trie: set<string>
    ghost const oneofOf: Oneofs
    ghost var accepted: set<FieldPath>
    /** Set when an accepted path hides a stored one that continues it. */
    ghost var hidden: bool
    /** Set by the first error, which ends a run. */
    ghost var ended: bool

    constructor (ghost oneofOf: Oneofs)
      ensures Valid() && !ended && !hidden && accepted == {} && this.oneofOf == oneofOf
    {
      oneofs, trie, accepted, hidden, ended := map[], {}, {}, false, false;
      this.oneofOf := oneofOf;
    }

    ghost predicate Valid()
      reads this
    {
      !ended ==>
        && Texts(trie, accepted) && OneofsOk(oneofOf, oneofs, accepted) && OneofsApart(oneofOf, accepted)
        && (TextAntichain(trie) <==> !hidden) && (hidden ==> HasLoose(trie))
    }

    /** The text of a path, and that of its outermost oneof, if it has one. */
    method Describe(structs: seq<string>, fields: seq<Field>) returns (path: string, oneofPath: string)
      requires InSchema(oneofOf, structs, fields)
      ensures path == Render(Names(structs, fields))
      ensures oneofPath == "" <==> KeyText(oneofOf, Names(structs, fields)).None?
      ensures oneofPath != "" ==> KeyText(oneofOf, Names(structs, fields)) == Some(oneofPath)
    {
      hide Render, Key, Names;
      ghost var p := Names(structs, fields);
      path, oneofPath := "", "";
      RenderStart(oneofOf, p);
      for i := 0 to |structs|
        invariant path == Render(p[..i]) && (path == "" <==> i == 0) && Key(oneofOf, p, i).None?
      {
        SchemaAt(oneofOf, structs, fields, i);
        DescribeStep(oneofOf, p, i);
        if path != "" {
          path := path + ".";
        }
        path := path + structs[i];
      }
      for i := 0 to |fields|
        invariant path == Render(p[..|structs| + i]) && (path == "" <==> |structs| + i == 0)
        invariant oneofPath == KeyTextUpTo(oneofOf, p, |structs| + i)
        invariant Key(oneofOf, p, |structs| + i).Some? ==> oneofPath != ""
      {
        SchemaAt(oneofOf, structs, fields, |structs| + i);
        DescribeStep(oneofOf, p, |structs| + i);
        if fields[i].oneof.Some? && oneofPath == "" {
          oneofPath := path;
          if oneofPath != "" {
            oneofPath := oneofPath + ".";
          }
          oneofPath := oneofPath + fields[i].oneof.value;
        }
        if path != "" {
          path := path + ".";
        }
        path := path + fields[i].Text();
      }
      assert p[..|p|] == p;
    }

    /** Records the outermost oneof of a path, unless an accepted path has one with the
        same text. */
    method RecordOneofConflict(path: string, oneofPath: string, ghost p: FieldPath) returns (conflict: Option<string>)
      requires OneofsOk(oneofOf, oneofs, accepted) && OneofsApart(oneofOf, accepted) && path == Render(p)
      requires oneofPath == "" <==> KeyText(oneofOf, p).None?
      requires oneofPath != "" ==> KeyText(oneofOf, p) == Some(oneofPath)
      modifies this`oneofs
      ensures conflict.Some? <==> HasSameKey(oneofOf, accepted, p)
      ensures conflict.Some? ==> exists q :: q in accepted && SameKeyText(oneofOf, p, q) && conflict.value == Render(q)
      ensures conflict.None? ==> OneofsOk(oneofOf, oneofs, accepted + {p}) && OneofsApart(oneofOf, accepted + {p})
    {
      hide Render, Key, SameKeyText, OneofsOk, OneofsApart, KeyText, HasSameKey;
      OneofFound(oneofOf, oneofs, accepted, p);
      if oneofPath != "" && oneofPath in oneofs {
        return Some(oneofs[oneofPath]);
      }
      OneofAdded(oneofOf, oneofs, accepted, p);
      if oneofPath != "" {
        oneofs := oneofs[oneofPath := path];
      }
      conflict := None;
    }

    /** The longest stored text that is a prefix of `path`. */
    method GetDataForMaximalPrefix(path: string) returns (length: Option<nat>)
      ensures length.Some? ==> length.value <= |path| && path[..length.value] in trie
      ensures length.Some? ==> forall s :: s in trie && s <= path ==> |s| <= length.value
      ensures length.None? ==> forall s :: s in trie ==> !(s <= path)
    {
      var n := |path|;
      while n > 0 && path[..n] !in trie
        invariant 0 <= n <= |path| && forall s :: s in trie && s <= path ==> |s| <= n
      {
        forall s | s in trie && s <= path
          ensures |s| < n
        {
          assert s == path[..|s|];
        }
        n := n - 1;
      }
      if path[..n] in trie {
        return Some(n);
      }
      length := None;
    }

    /** Searches for an overlapping text, and stores this one if there is none. */
    method RecordPathConflict(path: string) returns (conflict: Option<string>)
      modifies this`trie
      ensures conflict.Some? <==> Detected(old(trie), path)
      ensures conflict.Some? ==> conflict.value in trie && TextOverlap(conflict.value, path)
      ensures trie == if conflict.None? then old(trie) + {path} else old(trie)
    {
      hide Detected, Covers;
      var length := GetDataForMaximalPrefix(path);
      var matching: set<string> := {};
      var prefixExists := false;
      if length.Some? {
        prefixExists := length.value == |path| || path[length.value] == '.';
        PrefixFound(trie, path, length.value);
      } else {
        matching := set s | s in trie && path + "." <= s;
        NoPrefixFound(trie, path, matching);
      }
      if prefixExists {
        return Some(path[..length.value]);
      }
      if matching != {} {
        var s :| s in matching;
        return Some(s);
      }
      trie := trie + {path};
      conflict := None;
    }

    /** Adds a path, unless it goes through the oneof of an accepted path or the search
        finds that it overlaps with one. A path that goes through a oneof of an accepted
        one is never accepted. What is reported is real when no name reads like a longer
        path, and then the accepted paths are free of overlaps as long as none hides. */
    method AddFieldPath(structs: seq<string>, fields: seq<Field>) returns (r: Outcome)
      requires Valid() && !ended && InSchema(oneofOf, structs, fields)
      modifies this
      ensures Valid() && ended == !r.Accepted?
      ensures accepted == if r.Accepted? then old(accepted) + {Names(structs, fields)} else old(accepted)
      ensures hidden <==> old(hidden) || (r.Accepted? && Hides(old(trie), Render(Names(structs, fields))))
      ensures var p := Names(structs, fields);
              && (r.OneofConflict? <==> HasSameKey(oneofOf, old(accepted), p))
              && (r.PathConflict? <==> !r.OneofConflict? && Detected(old(trie), Render(p)))
              && (!r.Accepted? ==> r.path == Render(p))
      ensures r.OneofConflict? ==>
                exists q :: && q in old(accepted) && SameKeyText(oneofOf, Names(structs, fields), q)
                            && r.conflicting == Render(q)
      ensures r.PathConflict? ==>
                exists q :: && q in old(accepted) && TextOverlap(Render(q), Render(Names(structs, fields)))
                            && r.conflicting == Render(q)
      ensures r.Accepted? && !hidden ==> Antichain(accepted)
      ensures r.Accepted? && NoClashes(accepted) ==> (Antichain(accepted) <==> !hidden)
    {
      hide Render, Texts, Detected, TextOverlap, OneofsOk, OneofsApart, KeyText, Key, Names, HasSameKey, SameKeyText,
           Hides,
           TextAntichain, HasLoose, Antichain, NoClashes;
      var path, oneofPath := Describe(structs, fields);
      ghost var p := Names(structs, fields);
      var conflict := RecordOneofConflict(path, oneofPath, p);
      if conflict.Some? {
        ended := true;
        return OneofConflict(path, conflict.value);
      }
      AntichainKept(trie, path, hidden);
      TextAdded(trie, accepted, p);
      conflict := RecordPathConflict(path);
      if conflict.Some? {
        StoredText(trie, accepted, conflict.value);
        ended := true;
        return PathConflict(path, conflict.value);
      }
      hidden := hidden || Hides(old(trie), path);
      accepted := accepted + {p};
      AntichainIff(trie, accepted);
      r := Accepted;
    }
  }

  ghost function KeyTextUpTo(oneofOf: Oneofs, p: FieldPath, n: nat): string
    requires n <= |p|
  {
    if Key(oneofOf, p, n).None? then "" else Render(Key(oneofOf, p, n).value)
  }

  lemma RenderStart(oneofOf: Oneofs, p: FieldPath)
    ensures Render(p[..0]) == "" && Key(oneofOf, p, 0).None?
  {
  }

  lemma {:induction false} RenderLonger(p: FieldPath, c: string)
    requires p != []
    ensures Render(p + [c]) == Render(p) + "." + c
    decreases |p|
  {
    if |p| == 1 {
      assert (p + [c])[1..] == [c];
    } else {
      assert (p + [c])[1..] == p[1..] + [c];
      RenderLonger(p[1..], c);
    }
  }

  lemma SchemaAt(oneofOf: Oneofs, structs: seq<string>, fields: seq<Field>, n: nat)
    requires InSchema(oneofOf, structs, fields) && n < |structs| + |fields|
    ensures var p := Names(structs, fields);
            && p[n] != "" && OneofAt(oneofOf, p, n) == (if n < |structs| then None else fields[n - |structs|].oneof)
            && OneofAt(oneofOf, p, n) != Some("")
  {
    hide Names, OneofAt;
    if n >= |structs| {
      var i := n - |structs|;
      assert OneofAt(oneofOf, Names(structs, fields), |structs| + i) == fields[i].oneof;
    }
  }

  /** One more name. */
  lemma DescribeStep(oneofOf: Oneofs, p: FieldPath, n: nat)
    requires n < |p| && p[n] != "" && OneofAt(oneofOf, p, n) != Some("")
    ensures Render(p[..n + 1]) == (if n == 0 then p[0] else Render(p[..n]) + "." + p[n]) && Render(p[..n + 1]) != ""
    ensures Key(oneofOf, p, n).Some? ==> Key(oneofOf, p, n + 1) == Key(oneofOf, p, n)
    ensures Key(oneofOf, p, n).None? && OneofAt(oneofOf, p, n).None? ==> Key(oneofOf, p, n + 1).None?
    ensures Key(oneofOf, p, n).None? && OneofAt(oneofOf, p, n).Some? ==>
              var o := OneofAt(oneofOf, p, n).value;
              && Key(oneofOf, p, n + 1) == Some(p[..n] + [o])
              && Render(p[..n] + [o]) == (if n == 0 then o else Render(p[..n]) + "." + o) && Render(p[..n] + [o]) != ""
  {
    hide Key;
    KeyStep(oneofOf, p, n);
    assert p[..n + 1] == p[..n] + [p[n]];
    if n > 0 {
      RenderLonger(p[..n], p[n]);
      if OneofAt(oneofOf, p, n).Some? { RenderLonger(p[..n], OneofAt(oneofOf, p, n).value); }
    }
  }

  /** A recorded oneof is that of an accepted path. */
  lemma OneofFound(oneofOf: Oneofs, oneofs: map<string, string>, paths: set<FieldPath>, p: FieldPath)
    requires OneofsOk(oneofOf, oneofs, paths)
    ensures HasSameKey(oneofOf, paths, p) <==> KeyText(oneofOf, p).Some? && KeyText(oneofOf, p).value in oneofs
    ensures KeyText(oneofOf, p).Some? && KeyText(oneofOf, p).value in oneofs ==>
              exists q :: q in paths && SameKeyText(oneofOf, p, q) && oneofs[KeyText(oneofOf, p).value] == Render(q)
  {
    hide Render, Key, KeyText;
    if KeyText(oneofOf, p).Some? && KeyText(oneofOf, p).value in oneofs {
      var key := KeyText(oneofOf, p).value;
      assert RecordedFor(oneofOf, paths, key, oneofs[key]);
      var q :| q in paths && KeyText(oneofOf, q) == Some(key) && Render(q) == oneofs[key];
      assert SameKeyText(oneofOf, p, q);
    }
  }

  lemma OneofAdded(oneofOf: Oneofs, oneofs: map<string, string>, paths: set<FieldPath>, p: FieldPath)
    requires OneofsOk(oneofOf, oneofs, paths) && OneofsApart(oneofOf, paths)
    requires KeyText(oneofOf, p).Some? ==> KeyText(oneofOf, p).value !in oneofs
    ensures OneofsApart(oneofOf, paths + {p})
    ensures var more := if KeyText(oneofOf, p).None? then oneofs else oneofs[KeyText(oneofOf, p).value := Render(p)];
            OneofsOk(oneofOf, more, paths + {p})
  {
    hide Render, Key, SharesOneof, KeyText;
    var more := if KeyText(oneofOf, p).None? then oneofs else oneofs[KeyText(oneofOf, p).value := Render(p)];
    forall k | k in more
      ensures RecordedFor(oneofOf, paths + {p}, k, more[k])
    {
      if KeyText(oneofOf, p) != Some(k) {
        assert RecordedFor(oneofOf, paths, k, oneofs[k]);
        var q :| q in paths && KeyText(oneofOf, q) == Some(k) && Render(q) == oneofs[k];
        assert q in paths + {p};
      }
    }
    forall q | q in paths
      ensures !SharesOneof(oneofOf, p, q) && !SharesOneof(oneofOf, q, p)
    {
      SharesIffKeyText(oneofOf, p, q);
      SharesIffKeyText(oneofOf, q, p);
    }
  }

  /** The longest stored prefix decides. */
  lemma PrefixFound(trie: set<string>, x: string, length: nat)
    requires length <= |x| && x[..length] in trie
    requires forall s :: s in trie && s <= x ==> |s| <= length
    ensures Detected(trie, x) <==> length == |x| || x[length] == '.'
    ensures Detected(trie, x) ==> TextOverlap(x[..length], x)
  {
    var s := x[..length];
    assert s <= x && HasPrefix(trie, x) && Longest(trie, x, s);
    AtDot(x, length);
    forall t | t in trie && Longest(trie, x, t)
      ensures t == s
    {
      assert t == x[..|t|];
    }
  }

  lemma AtDot(text: string, length: nat)
    requires length <= |text|
    ensures Covers(text[..length], text) <==> length == |text| || text[length] == '.'
  {
    if length < |text| && text[length] == '.' {
      assert text[..length + 1] == text[..length] + ".";
    }
    if text[..length] + "." <= text {
      assert text[length] == (text[..length] + ".")[length];
    }
  }

  lemma NoPrefixFound(trie: set<string>, x: string, matching: set<string>)
    requires forall s :: s in trie ==> !(s <= x)
    requires matching == set s | s in trie && x + "." <= s
    ensures Detected(trie, x) <==> matching != {}
    ensures forall s :: s in matching ==> s in trie && TextOverlap(s, x)
  {
    assert !HasPrefix(trie, x);
    if s :| s in trie && x + "." <= s {
      assert s in matching;
    }
    if matching != {} {
      var s :| s in matching;
      assert HasExtension(trie, x);
    }
  }

  lemma AntichainKept(trie: set<string>, x: string, hidden: bool)
    requires TextAntichain(trie) <==> !hidden
    requires hidden ==> HasLoose(trie)
    ensures !Detected(trie, x) ==>
              && (TextAntichain(trie + {x}) <==> !(hidden || Hides(trie, x)))
              && (hidden || Hides(trie, x) ==> HasLoose(trie + {x}))
  {
    hide Detected, TextAntichain, Hides, Loose;
    if !Detected(trie, x) {
      AntichainStep(trie, x);
      if hidden {
        var s, t :| s in trie && t in trie && Loose(s, t);
        assert s in trie + {x} && t in trie + {x};
      }
    }
  }

  lemma StoredText(trie: set<string>, paths: set<FieldPath>, s: string)
    requires Texts(trie, paths) && s in trie
    ensures exists q :: q in paths && Render(q) == s
  {
    hide Render;
    assert TextOf(s, paths);
  }

  lemma TextAdded(trie: set<string>, paths: set<FieldPath>, p: FieldPath)
    requires Texts(trie, paths) && p != []
    ensures Texts(trie + {Render(p)}, paths + {p})
  {
    hide Render;
    forall s | s in trie + {Render(p)}
      ensures TextOf(s, paths + {p})
    {
      if s in trie {
        assert TextOf(s, paths);
        var q :| q in paths && Render(q) == s;
        assert q in paths + {p};
      } else {
        assert p in paths + {p};
      }
    }
  }

  // ----- Where a report is wrong, and where one is missing -----

  /** A field `a.b` and the field `b` of a field `a` have the same text, so the second
      is reported to overlap with the first, though the paths do not. */
  lemma DottedNameReported()
    ensures Render(["a", "b"]) == Render(["a.b"]) == "a.b" && Detected({"a.b"}, "a.b")
    ensures !Overlap(["a.b"], ["a", "b"]) && Clash(["a.b"], ["a", "b"])
  {
    assert ["a", "b"][1..] == ["b"];
    assert Render(["a", "b"]) == "a.b";
    StoredDetected({"a.b"}, "a.b");
    assert ["a.b"][0] != ["a", "b"][0];
    assert "a" + "." <= "a.b";
    assert ["a.b"][..0] == ["a", "b"][..0];
    assert ClashAt(["a.b"], ["a", "b"], 0);
  }

  /** After `a` and `ab.c`, the path `ab` is accepted, although `ab.c` lies in it. */
  lemma HiddenOverlapAccepted()
    ensures !Detected({"a"}, "ab.c") && !Detected({"a", "ab.c"}, "ab")
    ensures TextAntichain({"a", "ab.c"}) && Hides({"a", "ab.c"}, "ab")
    ensures Render(["ab", "c"]) == "ab.c" && Render(["ab"]) == "ab" && Overlap(["ab", "c"], ["ab"])
  {
    assert ["ab", "c"][1..] == ["c"];
    assert "a" <= "ab" && "a" <= "ab.c" && !("ab.c" <= "ab") && "ab" + "." <= "ab.c";
    assert "ab"[1] == 'b' && "ab.c"[1] == 'b' && ("a" + ".")[1] == '.';
    assert !Covers("a", "ab.c") && !Covers("a", "ab") && !Covers("ab.c", "a");
    HiddenMissed({"a", "ab.c"}, "ab");
  }
}

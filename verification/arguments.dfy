/** The option-hash serialiser of the test helpers: every (key, value) pair becomes one
    command-line segment, and the segments are joined with single spaces. */
module Arguments {
  import opened RubyHash
  import opened Text

  /** A Ruby hash key. String and symbol keys are different keys to the hash, but both
      interpolate as their bare name. */
  datatype Key = StringKey(name: string) | SymbolKey(name: string)

  /** An option value: `true`/`false`, nil, or any other object, represented by its
      `to_s` rendering. */
  datatype Value = Bool(b: bool) | Str(s: string) | Nil

  /** An option hash in iteration order. */
  type Options = seq<(Key, Value)>

  /** The segment for one pair: `--key` for true, `--no-key` for false, `--key=value` for
      any other non-nil value, and nothing for nil (`Array#join` renders nil as ""). Only
      a nil value gives an empty segment, and every other segment starts with `--`. */
  function Token(k: Key, v: Value): (t: string)
    ensures t == "" <==> v.Nil?
    ensures !v.Nil? ==> |t| >= 2 && t[..2] == "--"
  {
    match v
    case Bool(true) => "--" + k.name
    case Bool(false) => "--no-" + k.name
    case Str(s) => "--" + k.name + "=" + s
    case Nil => ""
  }

  /** A segment has a space only if its key's name or its string value has one. */
  lemma TokenSpaces(k: Key, v: Value)
    ensures ' ' !in k.name && (v.Str? ==> ' ' !in v.s) ==> ' ' !in Token(k, v)
  {
  }

  /** The segments of `hash.map { ... }`: one per pair, in hash order, empty exactly for
      the pairs whose value is nil. */
  function Segments(h: Options): (segs: seq<string>)
    ensures |segs| == |h|
    ensures forall i :: 0 <= i < |h| ==> (segs[i] == "" <==> h[i].1.Nil?)
  {
    seq(|h|, i requires 0 <= i < |h| => Token(h[i].0, h[i].1))
  }

  /** `hash_to_arguments`: the segments joined with single spaces. An empty hash gives the
      empty string; otherwise the result is as long as the segments together plus one
      separator between each two. */
  function HashToArguments(h: Options): (r: string)
    ensures h == [] ==> r == ""
    ensures h != [] ==> |r| == TotalLength(Segments(h)) + |h| - 1
  {
    Join(Segments(h))
  }

  /** No key name and no string value contains a space. */
  predicate SpaceFree(h: Options) {
    forall i :: 0 <= i < |h| ==> ' ' !in h[i].0.name && (h[i].1.Str? ==> ' ' !in h[i].1.s)
  }

  /** Splitting the serialised hash at its spaces gives back one field per pair, in order:
      the pair's segment, which is empty for a nil value. An empty hash gives the empty
      string. */
  lemma ArgumentFields(h: Options)
    requires SpaceFree(h)
    ensures h == [] ==> HashToArguments(h) == ""
    ensures h != [] ==> Split(HashToArguments(h)) == Segments(h)
    ensures forall i :: 0 <= i < |h| && h != [] ==> Split(HashToArguments(h))[i] == Token(h[i].0, h[i].1)
  {
    if h != [] {
      forall i | 0 <= i < |h| ensures ' ' !in Segments(h)[i] {
        TokenSpaces(h[i].0, h[i].1);
      }
      SplitJoin(Segments(h));
    }
  }

  /** A hash of n entries is serialised with exactly n - 1 separators, nil entries
      included, on top of the spaces inside the segments themselves; so a space-free hash
      gives exactly n - 1 spaces. */
  lemma SeparatorCount(h: Options)
    ensures h == [] ==> Count(HashToArguments(h), ' ') == 0
    ensures h != [] ==> Count(HashToArguments(h), ' ') == Spaces(Segments(h)) + |h| - 1
    ensures h != [] && SpaceFree(h) ==> Count(HashToArguments(h), ' ') == |h| - 1
  {
    if h != [] {
      JoinSize(Segments(h));
      if SpaceFree(h) {
        forall i | 0 <= i < |h| ensures ' ' !in Segments(h)[i] {
          TokenSpaces(h[i].0, h[i].1);
        }
        SpacesAbsent(Segments(h));
      }
    }
  }

  /** A nil entry strictly inside the hash leaves an empty field between its two
      separators: two spaces in a row between the segments before it and after it. */
  lemma NilBetween(h: Options, i: nat)
    requires 0 < i < |h| - 1 && h[i].1.Nil?
    ensures HashToArguments(h) == Join(Segments(h)[..i]) + "  " + Join(Segments(h)[i + 1..])
  {
    var segs := Segments(h);
    var pre, post := segs[..i], segs[i + 1..];
    assert segs == pre + ([""] + post);
    JoinConcat(pre, [""] + post);
    assert Join([""] + post) == " " + Join(post) by {
      assert ([""] + post)[1..] == post;
    }
  }

  /** A nil entry at either end of a hash of two or more entries leaves only its
      separator: a leading space when it comes first, a trailing space when it comes last. */
  lemma NilAtEnds(h: Options)
    requires |h| > 1
    ensures h[0].1.Nil? ==> HashToArguments(h)[0] == ' '
    ensures h[|h| - 1].1.Nil? ==> HashToArguments(h)[|HashToArguments(h)| - 1] == ' '
  {
    var segs := Segments(h);
    if h[|h| - 1].1.Nil? {
      var pre := segs[..|h| - 1];
      assert segs == pre + [""];
      JoinConcat(pre, [""]);
    }
  }

  /** Merging two space-free hashes gives a space-free hash. */
  lemma MergeSpaceFree(d: Options, u: Options)
    requires DistinctKeys(d) && DistinctKeys(u)
    requires SpaceFree(d) && SpaceFree(u)
    ensures SpaceFree(Merge(d, u))
  {
    var r := Merge(d, u);
    forall i | 0 <= i < |r| ensures ' ' !in r[i].0.name && (r[i].1.Str? ==> ' ' !in r[i].1.s) {
      MergeFrom(d, u, i);
    }
  }

  /** Serialising a merged hash: each key of `d` gives its segment in its own position,
      from `u`'s value when `u` has the key and from its own value otherwise; the segments
      of `u`'s new keys follow, in `u`'s order. */
  lemma MergedSegments(d: Options, u: Options)
    requires DistinctKeys(d) && DistinctKeys(u)
    ensures |Segments(Merge(d, u))| >= |d|
    ensures forall i :: 0 <= i < |d| && HasKey(u, d[i].0) ==>
      Segments(Merge(d, u))[i] == Token(d[i].0, Lookup(u, d[i].0).value)
    ensures forall i :: 0 <= i < |d| && !HasKey(u, d[i].0) ==>
      Segments(Merge(d, u))[i] == Segments(d)[i]
    ensures Segments(Merge(d, u))[|d|..] == Segments(Fresh(u, d))
  {
    var r := Merge(d, u);
    MergeLayout(d, u);
    forall i | 0 <= i < |d| && HasKey(u, d[i].0)
      ensures Segments(r)[i] == Token(d[i].0, Lookup(u, d[i].0).value)
    {
      assert r[i].0 == d[i].0;
    }
    forall i | 0 <= i < |d| && !HasKey(u, d[i].0)
      ensures Segments(r)[i] == Segments(d)[i]
    {
      assert r[i] == d[i];
    }
    assert Segments(r)[|d|..] == Segments(Fresh(u, d)) by {
      SegmentsSuffix(r, |d|);
    }
  }

  /** The segments of the entries from `n` on are the segments from `n` on. */
  lemma SegmentsSuffix(h: Options, n: nat)
    requires n <= |h|
    ensures Segments(h)[n..] == Segments(h[n..])
  {
  }

  /** Merging in a single option for a key `d` already has changes only that key's
      segment, in place. */
  lemma OverrideOne(d: Options, i: nat, v: Value)
    requires DistinctKeys(d) && i < |d|
    ensures Segments(Merge(d, [(d[i].0, v)])) == Segments(d)[i := Token(d[i].0, v)]
  {
    var k := d[i].0;
    var r := Merge(d, [(k, v)]);
    MergeSingle(d, k, v);
    IndexOfEntry(d, i);
    SegmentsUpdate(d, i, k, v);
  }

  /** Replacing one entry replaces just its segment. */
  lemma SegmentsUpdate(h: Options, i: nat, k: Key, v: Value)
    requires i < |h|
    ensures Segments(h[i := (k, v)]) == Segments(h)[i := Token(k, v)]
  {
    var a, b := Segments(h[i := (k, v)]), Segments(h)[i := Token(k, v)];
    assert |a| == |b|;
    forall j | 0 <= j < |a| ensures a[j] == b[j] {
    }
  }

  /** Merging in a single option for a key `d` does not have appends its segment after
      all of `d`'s. */
  lemma AddOne(d: Options, k: Key, v: Value)
    requires DistinctKeys(d) && !HasKey(d, k)
    ensures Segments(Merge(d, [(k, v)])) == Segments(d) + [Token(k, v)]
  {
    MergeSingle(d, k, v);
  }
}

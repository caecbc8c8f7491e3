/** Reading one segment back into a (name, value) pair, the way a long-option parser reads
    `--name=value`, `--no-name` and `--name`. This is the inverse that the serialiser's
    segments are meant to have, and it shows which pairs the segments cannot tell apart. */
module FlagReader {
  import opened Arguments

  /** What reading a segment gives: not a flag at all, or a flag's name and value. */
  datatype Reading = NotAFlag | Flag(name: string, value: Value)

  /** The position of the first `c` in `s`. */
  function FirstIndex(s: string, c: char): (i: nat)
    requires c in s
    ensures i < |s| && s[i] == c
    ensures c !in s[..i]
  {
    if s[0] == c then 0
    else
      assert s == [s[0]] + s[1..];
      var j := FirstIndex(s[1..], c);
      assert s[..j + 1] == [s[0]] + s[1..][..j];
      j + 1
  }

  /** Whether `s` begins with `p`. */
  predicate StartsWith(s: string, p: string) {
    |p| <= |s| && s[..|p|] == p
  }

  /** Reads a segment: `--name=value` (split at the first `=`) gives a string value,
      `--no-name` gives false, `--name` gives true, and anything not starting with `--`
      (the empty segment of a nil value among them) is not a flag. */
  function ReadFlag(t: string): (r: Reading)
    ensures r.NotAFlag? <==> !StartsWith(t, "--")
    ensures r.Flag? ==> !r.value.Nil?
    ensures r.Flag? && r.value.Str? ==> '=' !in r.name
    ensures r.Flag? && r.value.Bool? ==> '=' !in t
  {
    if !StartsWith(t, "--") then NotAFlag
    else
      var body := t[2..];
      if '=' in body then
        var i := FirstIndex(body, '=');
        Flag(body[..i], Str(body[i + 1..]))
      else if StartsWith(body, "no-") then Flag(body[3..], Bool(false))
      else Flag(body, Bool(true))
  }

  /** The pairs whose segment reads back unambiguously: a non-nil value, a name without
      `=`, and, for true, a name that does not itself begin with `no-`. */
  predicate Readable(k: Key, v: Value) {
    && !v.Nil?
    && '=' !in k.name
    && (v == Bool(true) ==> !StartsWith(k.name, "no-"))
  }

  /** Reading a segment gives back the key's name and the value, for every readable pair. */
  lemma ReadTokenInverts(k: Key, v: Value)
    requires Readable(k, v)
    ensures ReadFlag(Token(k, v)) == Flag(k.name, v)
  {
    match v
    case Bool(true) => ReadPlain(k.name);
    case Bool(false) => ReadNegated(k.name);
    case Str(s) => ReadValued(k.name, s);
  }

  /** `--name` reads as true, for a name without `=` that does not begin with `no-`. */
  lemma ReadPlain(name: string)
    requires '=' !in name && !StartsWith(name, "no-")
    ensures ReadFlag("--" + name) == Flag(name, Bool(true))
  {
    assert ("--" + name)[..2] == "--";
    assert ("--" + name)[2..] == name;
  }

  /** `--no-name` reads as false, for a name without `=`. */
  lemma ReadNegated(name: string)
    requires '=' !in name
    ensures ReadFlag("--no-" + name) == Flag(name, Bool(false))
  {
    var t := "--no-" + name;
    var body := t[2..];
    assert t[..2] == "--";
    assert body == "no-" + name;
    assert body[..3] == "no-" && body[3..] == name;
    assert '=' !in body by {
      assert forall j :: 3 <= j < |body| ==> body[j] == name[j - 3];
    }
  }

  /** `--name=value` reads as the string value, for a name without `=`; the value itself
      may hold further `=` signs. */
  lemma ReadValued(name: string, s: string)
    requires '=' !in name
    ensures ReadFlag("--" + name + "=" + s) == Flag(name, Str(s))
  {
    var t := "--" + name + "=" + s;
    var body := t[2..];
    assert t[..2] == "--";
    assert body == name + "=" + s;
    assert body[|name|] == '=';
    assert body[..|name|] == name;
    assert FirstIndex(body, '=') == |name|;
    assert body[|name| + 1..] == s;
  }

  /** A nil value leaves no flag at all: its segment is not read as anything. */
  lemma NilIsNotAFlag(k: Key)
    ensures ReadFlag(Token(k, Nil)) == NotAFlag
  {
  }

  /** True for a name beginning with `no-` writes the same segment as false for the rest of
      the name, so the segment cannot say which pair it came from. */
  lemma TrueNoPrefixCollides(name: string)
    ensures Token(StringKey("no-" + name), Bool(true)) == Token(StringKey(name), Bool(false))
  {
    assert "--" + ("no-" + name) == "--no-" + name;
  }

  /** A name containing `=` is read back split at that `=`: the segment of `"a=b" => true`
      reads as `a` with the string value `b`. */
  lemma EqualsInNameMisreads()
    ensures Token(StringKey("a=b"), Bool(true)) == "--a=b"
    ensures ReadFlag("--a=b") == Flag("a", Str("b"))
  {
    var body := "--a=b"[2..];
    assert body == "a=b";
    assert body[1] == '=';
    assert FirstIndex(body, '=') == 1;
    assert body[..1] == "a" && body[2..] == "b";
  }

  /** A string value that is empty still writes its `=`, so it reads back as the empty
      string and not as true. */
  lemma EmptyStringKeepsEquals(k: Key)
    requires '=' !in k.name
    ensures Token(k, Str("")) == "--" + k.name + "="
    ensures ReadFlag(Token(k, Str(""))) == Flag(k.name, Str(""))
  {
    ReadTokenInverts(k, Str(""));
  }
}

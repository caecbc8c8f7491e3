/** Joining strings with a single space (Ruby's `Array#join(" ")`) and its inverse,
    splitting on every single space. */
module Text {

  /** The number of occurrences of `c` in `s`. */
  function Count(s: string, c: char): nat {
    if s == [] then 0 else (if s[0] == c then 1 else 0) + Count(s[1..], c)
  }

  /** The total length of all parts. */
  function TotalLength(parts: seq<string>): nat {
    if parts == [] then 0 else |parts[0]| + TotalLength(parts[1..])
  }

  /** The parts in order with exactly one space between neighbours; no space before the
      first part or after the last, and the empty string for no parts. */
  function Join(parts: seq<string>): (s: string)
    ensures parts != [] ==> |s| == TotalLength(parts) + |parts| - 1
  {
    if |parts| == 0 then ""
    else if |parts| == 1 then parts[0]
    else parts[0] + " " + Join(parts[1..])
  }

  /** A join of n parts has n - 1 spaces more than the parts have. */
  lemma {:induction false} JoinSize(parts: seq<string>)
    requires |parts| > 0
    ensures Count(Join(parts), ' ') == Spaces(parts) + |parts| - 1
    decreases |parts|
  {
    if |parts| > 1 {
      JoinSize(parts[1..]);
      CountAppend(parts[0], " ", ' ');
      CountAppend(parts[0] + " ", Join(parts[1..]), ' ');
    }
  }

  /** Joining two nonempty lists is joining each and putting one space between them. */
  lemma {:induction false} JoinConcat(a: seq<string>, b: seq<string>)
    requires a != [] && b != []
    ensures Join(a + b) == Join(a) + " " + Join(b)
    decreases |a|
  {
    assert (a + b)[0] == a[0];
    if |a| > 1 {
      assert (a + b)[1..] == a[1..] + b;
      JoinConcat(a[1..], b);
    } else {
      assert (a + b)[1..] == b;
    }
  }

  /** A string without `c` has no occurrences of it. */
  lemma {:induction false} CountAbsent(s: string, c: char)
    requires c !in s
    ensures Count(s, c) == 0
    decreases |s|
  {
    if s != [] {
      assert c !in s[1..] by {
        forall i | 0 <= i < |s[1..]| ensures s[1..][i] != c {
          assert s[1..][i] == s[i + 1];
        }
      }
      CountAbsent(s[1..], c);
    }
  }

  /** Parts without spaces have no spaces inside them. */
  lemma {:induction false} SpacesAbsent(parts: seq<string>)
    requires forall i :: 0 <= i < |parts| ==> ' ' !in parts[i]
    ensures Spaces(parts) == 0
    decreases |parts|
  {
    if parts != [] {
      CountAbsent(parts[0], ' ');
      assert forall i :: 0 <= i < |parts[1..]| ==> parts[1..][i] == parts[i + 1];
      SpacesAbsent(parts[1..]);
    }
  }

  /** The number of spaces inside the parts themselves. */
  function Spaces(parts: seq<string>): nat {
    if parts == [] then 0 else Count(parts[0], ' ') + Spaces(parts[1..])
  }

  lemma {:induction false} CountAppend(a: string, b: string, c: char)
    ensures Count(a + b, c) == Count(a, c) + Count(b, c)
    decreases |a|
  {
    if a == [] {
      assert a + b == b;
    } else {
      assert (a + b)[1..] == a[1..] + b;
      CountAppend(a[1..], b, c);
    }
  }

  /** The fields of `s` between single spaces. Runs of spaces give empty fields, and a
      string with k spaces always has k + 1 fields. */
  function Split(s: string): seq<string> {
    if s == [] then [""]
    else if s[0] == ' ' then [""] + Split(s[1..])
    else
      var rest := Split(s[1..]);
      if rest == [] then [[s[0]]] else [[s[0]] + rest[0]] + rest[1..]
  }

  /** A string with k spaces has k + 1 fields, none of which contains a space. */
  lemma {:induction false} SplitSize(s: string)
    ensures |Split(s)| == Count(s, ' ') + 1
    ensures forall i :: 0 <= i < |Split(s)| ==> ' ' !in Split(s)[i]
    decreases |s|
  {
    if s != [] {
      SplitSize(s[1..]);
    }
  }

  /** A string without spaces is a single field. */
  lemma {:induction false} SplitWithoutSpace(a: string)
    requires ' ' !in a
    ensures Split(a) == [a]
    decreases |a|
  {
    if a != [] {
      assert ' ' !in a[1..] by {
        forall i | 0 <= i < |a[1..]| ensures a[1..][i] != ' ' {
          assert a[1..][i] == a[i + 1];
        }
      }
      SplitWithoutSpace(a[1..]);
      assert [a[0]] + a[1..] == a;
    }
  }

  /** Splitting at one space splits the two sides independently. */
  lemma {:induction false} SplitAtSpace(a: string, b: string)
    ensures Split(a + " " + b) == Split(a) + Split(b)
    decreases |a|
  {
    if a == [] {
      assert a + " " + b == " " + b;
      SplitSpaceFirst(b);
    } else {
      SplitAtSpace(a[1..], b);
      SplitAtSpaceStep(a[0], a[1..], b);
      assert a == [a[0]] + a[1..];
    }
  }

  /** The inductive step of `SplitAtSpace`: one more character in front. */
  lemma SplitAtSpaceStep(c: char, a: string, b: string)
    requires Split(a + " " + b) == Split(a) + Split(b)
    ensures Split([c] + a + " " + b) == Split([c] + a) + Split(b)
  {
    var t := a + " " + b;
    assert [c] + a + " " + b == [c] + t;
    if c == ' ' {
      SplitSpaceFirst(t);
      SplitSpaceFirst(a);
    } else {
      SplitSize(a);
      SplitCharFirst(c, t);
      SplitCharFirst(c, a);
      FirstFieldJoined([c], Split(a), Split(b));
    }
  }

  /** Gluing a prefix onto the first field of `left + right` is gluing it onto the first
      field of `left`, when `left` has one. */
  lemma FirstFieldJoined(p: string, left: seq<string>, right: seq<string>)
    requires left != []
    ensures [p + (left + right)[0]] + (left + right)[1..] == ([p + left[0]] + left[1..]) + right
  {
    assert (left + right)[1..] == left[1..] + right;
  }

  /** A leading space ends an empty first field. */
  lemma SplitSpaceFirst(t: string)
    ensures Split(" " + t) == [""] + Split(t)
  {
    assert (" " + t)[1..] == t;
  }

  /** A leading character other than a space starts the first field. */
  lemma SplitCharFirst(c: char, t: string)
    requires c != ' '
    ensures Split([c] + t) == [[c] + Split(t)[0]] + Split(t)[1..]
  {
    assert ([c] + t)[1..] == t;
    SplitSize(t);
  }

  /** A word without spaces followed by a space is the first field of what follows. */
  lemma SplitWord(w: string, s: string)
    requires ' ' !in w
    ensures Split(w + " " + s) == [w] + Split(s)
  {
    SplitAtSpace(w, s);
    SplitWithoutSpace(w);
  }

  /** Joining then splitting gives back the parts, when there is at least one part and no
      part contains a space. */
  lemma {:induction false} SplitJoin(parts: seq<string>)
    requires |parts| > 0
    requires forall i :: 0 <= i < |parts| ==> ' ' !in parts[i]
    ensures Split(Join(parts)) == parts
    decreases |parts|
  {
    SplitWithoutSpace(parts[0]);
    if |parts| > 1 {
      SplitAtSpace(parts[0], Join(parts[1..]));
      SplitJoin(parts[1..]);
      assert parts == [parts[0]] + parts[1..];
    }
  }

  /** Splitting then joining gives back the string: no character is lost or added. */
  lemma {:induction false} JoinSplit(s: string)
    ensures Join(Split(s)) == s
    decreases |s|
  {
    if s != [] {
      var rest := Split(s[1..]);
      SplitSize(s[1..]);
      JoinSplit(s[1..]);
      if s[0] == ' ' {
        assert ([""] + rest)[1..] == rest;
        assert s == " " + s[1..];
      } else {
        var fields := [[s[0]] + rest[0]] + rest[1..];
        if |rest| == 1 {
          assert s == [s[0]] + s[1..];
        } else {
          assert fields[1..] == rest[1..];
          assert Join(rest) == rest[0] + " " + Join(rest[1..]);
          assert s == [s[0]] + s[1..];
        }
      }
    }
  }
}

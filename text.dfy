/** JavaScript's `String.prototype.split` with a one-character separator and
    `Array.prototype.join`, over strings as sequences of characters. */
module Text {

  /** `s.split(sep)`: the runs of `s` between separators, in order. */
  function Split(s: string, sep: char): (fields: seq<string>)
    ensures |fields| >= 1
    ensures |fields| == 1 <==> sep !in s
    ensures forall i :: 0 <= i < |fields| ==> sep !in fields[i]
  {
    if s == [] then [""]
    else
      var rest := Split(s[1..], sep);
      assert sep in s <==> s[0] == sep || sep in s[1..] by {
        assert s == [s[0]] + s[1..];
      }
      if s[0] == sep then [""] + rest
      else [[s[0]] + rest[0]] + rest[1..]
  }

  /** `parts.join(sep)`: nothing for no parts, the part itself for one part;
      otherwise it starts with the first part. */
  function Join(parts: seq<string>, sep: string): (joined: string)
    ensures |parts| == 0 ==> joined == ""
    ensures |parts| == 1 ==> joined == parts[0]
    ensures |parts| >= 1 ==> |joined| >= |parts[0]| && joined[..|parts[0]|] == parts[0]
  {
    if |parts| == 0 then ""
    else if |parts| == 1 then parts[0]
    else parts[0] + sep + Join(parts[1..], sep)
  }

  /** Joining the fields of a split with the same separator gives back the
      original string. */
  lemma {:induction false} SplitJoin(s: string, sep: char)
    ensures Join(Split(s, sep), [sep]) == s
  {
    if s != [] {
      var rest := Split(s[1..], sep);
      SplitJoin(s[1..], sep);
      if s[0] == sep {
        assert ([""] + rest)[1..] == rest;
      } else if |rest| == 1 {
        assert Join(rest, [sep]) == rest[0];
      } else {
        var head := [s[0]] + rest[0];
        assert ([head] + rest[1..])[1..] == rest[1..];
        assert Join(rest, [sep]) == rest[0] + [sep] + Join(rest[1..], [sep]);
      }
    }
  }

  /** A string without the separator splits into itself alone. */
  lemma SplitWithoutSeparator(s: string, sep: char)
    requires sep !in s
    ensures Split(s, sep) == [s]
  {
    SplitJoin(s, sep);
  }

  /** The first field ends at the first separator; the rest is split on its
      own. */
  lemma {:induction false} SplitAtFirst(a: string, b: string, sep: char)
    requires sep !in a
    ensures Split(a + [sep] + b, sep) == [a] + Split(b, sep)
  {
    var s := a + [sep] + b;
    if a == [] {
      assert s[1..] == b;
    } else {
      assert s[0] == a[0];
      assert s[1..] == a[1..] + [sep] + b;
      SplitAtFirst(a[1..], b, sep);
      assert [a[0]] + a[1..] == a;
    }
  }

  /** Splitting a join of separator-free parts gives back the parts. */
  lemma {:induction false} JoinSplit(parts: seq<string>, sep: char)
    requires |parts| >= 1
    requires forall i :: 0 <= i < |parts| ==> sep !in parts[i]
    ensures Split(Join(parts, [sep]), sep) == parts
  {
    if |parts| == 1 {
      SplitWithoutSeparator(parts[0], sep);
    } else {
      JoinSplit(parts[1..], sep);
      SplitAtFirst(parts[0], Join(parts[1..], [sep]), sep);
      assert [parts[0]] + parts[1..] == parts;
    }
  }

  /** Appending a part appends the separator and that part: `join` read as a
      left-to-right accumulation. */
  lemma {:induction false} JoinSnoc(parts: seq<string>, last: string, sep: string)
    requires |parts| >= 1
    ensures Join(parts + [last], sep) == Join(parts, sep) + sep + last
  {
    if |parts| == 1 {
      assert (parts + [last])[1..] == [last];
    } else {
      assert (parts + [last])[1..] == parts[1..] + [last];
      JoinSnoc(parts[1..], last, sep);
    }
  }

  /** A fixed template around one inserted text determines that text. */
  lemma Embedded(head: string, x: string, y: string, tail: string)
    requires head + x + tail == head + y + tail
    ensures x == y
  {
    var s := head + x + tail;
    assert |x| == |y|;
    assert x == s[|head|..|head| + |x|];
    assert y == (head + y + tail)[|head|..|head| + |y|];
  }

  /** A fixed template with two inserted texts: with the second text fixed,
      the whole determines the first. */
  lemma FirstOfTwo(head: string, x: string, y: string, middle: string, z: string, tail: string)
    requires head + x + middle + z + tail == head + y + middle + z + tail
    ensures x == y
  {
    assert head + x + middle + z + tail == head + x + (middle + z + tail);
    assert head + y + middle + z + tail == head + y + (middle + z + tail);
    Embedded(head, x, y, middle + z + tail);
  }

  /** With the first text fixed, the whole determines the second. */
  lemma SecondOfTwo(head: string, z: string, middle: string, x: string, y: string, tail: string)
    requires head + z + middle + x + tail == head + z + middle + y + tail
    ensures x == y
  {
    Embedded(head + z + middle, x, y, tail);
  }

  /** A template with one inserted text reads back as its three pieces. */
  lemma Slot(head: string, x: string, tail: string)
    ensures var s := head + x + tail;
            s[..|head|] == head && s[|head|..|head| + |x|] == x && s[|head| + |x|..] == tail
  {
  }

  /** A template with two inserted texts reads back each of them. */
  lemma SlotsOfTwo(head: string, x: string, middle: string, z: string, tail: string)
    ensures var s := head + x + middle + z + tail;
            var at := |head| + |x| + |middle|;
            s[|head|..|head| + |x|] == x && s[at..at + |z|] == z
  {
    Slot(head, x, middle + z + tail);
    Slot(head + x + middle, z, tail);
    assert head + x + middle + z + tail == head + x + (middle + z + tail);
  }
}

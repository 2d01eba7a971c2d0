/** Path strings as MetadataFile.find walks them: `path.split('/')`. */
module Paths {
  import opened Bytes

  const SEP: char := '/'

  /** Python's `s.split('/')`: the pieces between separators, empty pieces
      included, so "" gives [""] and "/a" gives ["", "a"]. */
  function Split(s: string): (parts: seq<string>)
    ensures |parts| >= 1
    ensures forall i :: 0 <= i < |parts| ==> SEP !in parts[i]
    decreases |s|
  {
    var i := IndexOf(s, SEP);
    if i == |s| then [s]
    else
      assert SEP !in s[..i] by {
        forall j | 0 <= j < i ensures s[..i][j] != SEP { }
      }
      [s[..i]] + Split(s[i + 1..])
  }

  /** `'/'.join(parts)` */
  function Join(parts: seq<string>): (s: string)
    requires |parts| >= 1
  {
    if |parts| == 1 then parts[0] else parts[0] + [SEP] + Join(parts[1..])
  }

  /** Splitting loses nothing: joining the pieces gives the path back. */
  lemma {:induction false} JoinSplit(s: string)
    ensures Join(Split(s)) == s
    decreases |s|
  {
    var i := IndexOf(s, SEP);
    if i < |s| {
      JoinSplit(s[i + 1..]);
      assert Split(s)[1..] == Split(s[i + 1..]);
      assert s == s[..i] + [SEP] + s[i + 1..];
    }
  }

  /** Pieces without a separator come back unchanged from a join and a split. */
  lemma {:induction false} SplitJoin(parts: seq<string>)
    requires |parts| >= 1
    requires forall i :: 0 <= i < |parts| ==> SEP !in parts[i]
    ensures Split(Join(parts)) == parts
  {
    var p := parts[0];
    assert IndexOf(p, SEP) == |p|;
    if |parts| > 1 {
      var s := Join(parts);
      var tail := Join(parts[1..]);
      assert s == p + [SEP] + tail;
      assert s == p + ([SEP] + tail);
      IndexOfPast(p, [SEP] + tail, SEP);
      assert IndexOf(s, SEP) == |p|;
      assert s[..|p|] == p;
      assert s[|p| + 1..] == tail;
      assert Split(s) == [p] + Split(tail);
      SplitJoin(parts[1..]);
      assert [p] + parts[1..] == parts;
    } else {
      assert Join(parts) == p;
    }
  }

  /** The first x in a + b lies past a when a holds no x. */
  lemma {:induction false} IndexOfPast<T>(a: seq<T>, b: seq<T>, x: T)
    requires x !in a
    ensures IndexOf(a + b, x) == |a| + IndexOf(b, x)
  {
    if a != [] {
      assert (a + b)[1..] == a[1..] + b;
      IndexOfPast(a[1..], b, x);
    } else {
      assert a + b == b;
    }
  }

  /** Joining two paths with a separator joins their pieces. */
  lemma SplitAround(s: string, u: string)
    ensures Split(s + [SEP] + u) == Split(s) + Split(u)
  {
    var p, q := Split(s), Split(u);
    JoinSplit(s);
    JoinSplit(u);
    JoinAppend(p, q);
    SplitJoin(p + q);
  }

  /** Joining a concatenation puts one separator between the two joins. */
  lemma {:induction false} JoinAppend(p: seq<string>, q: seq<string>)
    requires |p| >= 1 && |q| >= 1
    ensures Join(p + q) == Join(p) + [SEP] + Join(q)
    decreases |p|
  {
    assert (p + q)[0] == p[0];
    if |p| == 1 {
      assert (p + q)[1..] == q;
    } else {
      assert (p + q)[1..] == p[1..] + q;
      JoinAppend(p[1..], q);
    }
  }

  /** A piece without a separator splits into itself. */
  lemma SplitPiece(s: string)
    requires SEP !in s
    ensures Split(s) == [s]
  {
    assert IndexOf(s, SEP) == |s|;
  }

  /** A leading separator adds one empty piece at the front. */
  lemma SplitPrependSep(s: string)
    ensures Split([SEP] + s) == [""] + Split(s)
  {
    var t := [SEP] + s;
    assert IndexOf(t, SEP) == 0;
    assert t[1..] == s;
  }
}

/**
  The two JavaScript string built-ins the resolver flag depends on, for the
  one separator the flag uses:
  - `Join` is `Array.prototype.join(", ")` on an array of strings;
  - `Split` is `String.prototype.split(", ")`, its inverse: the split that
    recovers the rule list from the flag.
  */
module JsStrings {

  /** The separator `rules.join(', ')` puts between two rules. */
  const Separator: string := ", "

  /** `s` holds the separator at index `i`. */
  predicate SepAt(s: string, i: int) {
    0 <= i && i + 1 < |s| && s[i] == ',' && s[i + 1] == ' '
  }

  /** `s` holds the separator somewhere. */
  predicate ContainsSep(s: string) {
    exists i :: 0 <= i < |s| && SepAt(s, i)
  }

  /** A string without a comma cannot hold the separator. */
  lemma NoCommaNoSep(s: string)
    requires forall i :: 0 <= i < |s| ==> s[i] != ','
    ensures !ContainsSep(s)
  {
  }

  /** No element of `parts` holds the separator. */
  predicate NoneContainsSep(parts: seq<string>) {
    forall k :: 0 <= k < |parts| ==> !ContainsSep(parts[k])
  }

  /** The index of the leftmost separator in `s`, or `|s|` when there is none. */
  function FirstSep(s: string): (k: nat)
    ensures k <= |s|
    ensures k < |s| ==> SepAt(s, k)
    ensures forall j :: 0 <= j < k ==> !SepAt(s, j)
    ensures k == |s| <==> !ContainsSep(s)
    decreases |s|
  {
    if |s| < 2 then |s|
    else if SepAt(s, 0) then 0
    else
      var k := 1 + FirstSep(s[1..]);
      assert forall j :: 0 <= j < k ==> !SepAt(s, j) by {
        forall j | 1 <= j < k
          ensures !SepAt(s, j)
        {
          assert !SepAt(s[1..], j - 1);
          if j + 1 < |s| {
            assert s[j] == s[1..][j - 1] && s[j + 1] == s[1..][j];
          }
        }
      }
      assert k < |s| ==> SepAt(s, k) by {
        if k < |s| {
          assert SepAt(s[1..], k - 1);
          assert s[k] == s[1..][k - 1] && s[k + 1] == s[1..][k];
        }
      }
      k
  }

  /** A separator at `k` with none before it is the one `FirstSep` finds. */
  lemma FirstSepIs(s: string, k: nat)
    requires SepAt(s, k)
    requires forall j :: 0 <= j < k ==> !SepAt(s, j)
    ensures FirstSep(s) == k
  {
  }

  /** `parts.join(", ")`: the parts in order, one separator between two neighbours. */
  function Join(parts: seq<string>): (r: string)
    ensures |parts| > 0 ==> |parts[0]| <= |r| && r[..|parts[0]|] == parts[0]
    ensures |parts| > 1 ==> |parts[0]| + 2 <= |r| && SepAt(r, |parts[0]|)
  {
    if |parts| == 0 then ""
    else if |parts| == 1 then parts[0]
    else parts[0] + Separator + Join(parts[1..])
  }

  /** Joining one more part appends a separator and that part. */
  lemma {:induction false} JoinSnoc(parts: seq<string>, p: string)
    requires |parts| > 0
    ensures Join(parts + [p]) == Join(parts) + Separator + p
  {
    if |parts| == 1 {
      assert parts + [p] == [parts[0], p];
      assert [parts[0], p][1..] == [p];
    } else {
      assert (parts + [p])[1..] == parts[1..] + [p];
      JoinSnoc(parts[1..], p);
    }
  }

  /** `s.split(", ")`: the pieces between separators, leftmost first. */
  function Split(s: string): (parts: seq<string>)
    ensures |parts| >= 1
    ensures NoneContainsSep(parts)
    decreases |s|
  {
    var i := FirstSep(s);
    if i == |s| then [s]
    else
      var head := s[..i];
      assert !ContainsSep(head) by {
        forall j | SepAt(head, j) ensures false {
          assert SepAt(s, j);
        }
      }
      [head] + Split(s[i + 2..])
  }

  /** Splitting a string and joining the pieces gives the string back. */
  lemma {:induction false} JoinSplit(s: string)
    ensures Join(Split(s)) == s
    decreases |s|
  {
    var i := FirstSep(s);
    if i < |s| {
      var rest := s[i + 2..];
      JoinSplit(rest);
      assert Split(s) == [s[..i]] + Split(rest);
      assert s == s[..i] + Separator + rest;
    }
  }

  /** A part with no separator lying next to a separator cannot form one across the seam. */
  lemma FirstSepOfJoin(p: string, rest: string)
    requires !ContainsSep(p)
    ensures FirstSep(p + Separator + rest) == |p|
  {
    var s := p + Separator + rest;
    forall j | 0 <= j < |p|
      ensures !SepAt(s, j)
    {
      if j + 1 == |p| {
        assert s[j + 1] == ',';
      } else {
        assert !SepAt(p, j);
        assert s[j] == p[j] && s[j + 1] == p[j + 1];
      }
    }
    FirstSepIs(s, |p|);
  }

  /** A string with no separator splits into itself alone. */
  lemma SplitNoSep(p: string)
    requires !ContainsSep(p)
    ensures Split(p) == [p]
  {
  }

  /** A separator-free part followed by a separator splits off as the first piece. */
  lemma SplitCons(p: string, rest: string)
    requires !ContainsSep(p)
    ensures Split(p + Separator + rest) == [p] + Split(rest)
  {
    var s := p + Separator + rest;
    FirstSepOfJoin(p, rest);
    assert s[..|p|] == p;
    assert s[|p| + 2..] == rest;
  }

  /** Joining parts that hold no separator and splitting again gives the parts back. */
  lemma {:induction false} SplitJoin(parts: seq<string>)
    requires |parts| > 0
    requires NoneContainsSep(parts)
    ensures Split(Join(parts)) == parts
  {
    if |parts| == 1 {
      SplitNoSep(parts[0]);
    } else {
      SplitCons(parts[0], Join(parts[1..]));
      SplitJoin(parts[1..]);
      assert parts == [parts[0]] + parts[1..];
    }
  }
}

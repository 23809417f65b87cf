/** Candidate strings: the digits still possible for one box, in the order
    the source keeps them. The reduction rules only ever delete characters,
    which is captured by the subsequence relation `IsSubseq`. */
module Candidates {

  /** Python's `s.replace(ch, '')`: every occurrence of `ch` deleted, the rest kept in order. */
  function RemoveChar(s: seq<char>, ch: char): (r: seq<char>)
    ensures |r| <= |s|
    ensures forall x :: x in r <==> x in s && x != ch
  {
    if |s| == 0 then []
    else if s[0] == ch then RemoveChar(s[1..], ch)
    else [s[0]] + RemoveChar(s[1..], ch)
  }

  /** Python's `s.replace(pat, '')` for a `pat` of at most one character;
      replacing the empty string by the empty string leaves `s` as it was. */
  function Strip(s: seq<char>, pat: seq<char>): (r: seq<char>)
    requires |pat| <= 1
  {
    if |pat| == 0 then s else RemoveChar(s, pat[0])
  }

  /** `Strip` keeps exactly the characters of `s` that are not in `pat`. */
  lemma StripContents(s: seq<char>, pat: seq<char>, x: char)
    requires |pat| <= 1
    ensures x in Strip(s, pat) <==> x in s && x !in pat
  {
    if |pat| == 1 {
      assert x in pat <==> x == pat[0];
    }
  }

  /** No element of `s` occurs twice. */
  predicate Distinct<T(==)>(s: seq<T>)
  {
    forall i, j :: 0 <= i < j < |s| ==> s[i] != s[j]
  }

  /** `a` is obtained from `b` by deleting characters, keeping the order of the rest. */
  predicate IsSubseq(a: seq<char>, b: seq<char>)
    decreases |b|
  {
    if |b| == 0 then |a| == 0
    else (|a| > 0 && a[0] == b[0] && IsSubseq(a[1..], b[1..])) || IsSubseq(a, b[1..])
  }

  lemma {:induction false} SubseqRefl(a: seq<char>)
    ensures IsSubseq(a, a)
    decreases |a|
  {
    if |a| > 0 {
      SubseqRefl(a[1..]);
    }
  }

  lemma {:induction false} EmptySubseq(b: seq<char>)
    ensures IsSubseq([], b)
    decreases |b|
  {
    if |b| > 0 {
      EmptySubseq(b[1..]);
    }
  }

  lemma {:induction false} SubseqTrans(a: seq<char>, b: seq<char>, c: seq<char>)
    requires IsSubseq(a, b) && IsSubseq(b, c)
    ensures IsSubseq(a, c)
    decreases |c|
  {
    if |c| == 0 {
    } else if IsSubseq(b, c[1..]) {
      SubseqTrans(a, b, c[1..]);
    } else {
      assert |b| > 0 && b[0] == c[0] && IsSubseq(b[1..], c[1..]);
      if |a| > 0 && a[0] == b[0] && IsSubseq(a[1..], b[1..]) {
        SubseqTrans(a[1..], b[1..], c[1..]);
      } else {
        SubseqTrans(a, b[1..], c[1..]);
      }
    }
  }

  /** A subsequence is no longer than the original and holds none but its characters. */
  lemma {:induction false} SubseqShrinks(a: seq<char>, b: seq<char>)
    requires IsSubseq(a, b)
    ensures |a| <= |b|
    ensures forall x :: x in a ==> x in b
    decreases |b|
  {
    if |b| > 0 {
      if |a| > 0 && a[0] == b[0] && IsSubseq(a[1..], b[1..]) {
        SubseqShrinks(a[1..], b[1..]);
        assert a == [a[0]] + a[1..];
      } else {
        SubseqShrinks(a, b[1..]);
      }
    }
  }

  /** A subsequence as long as the original is the original. */
  lemma {:induction false} SubseqSameLength(a: seq<char>, b: seq<char>)
    requires IsSubseq(a, b) && |a| >= |b|
    ensures a == b
    decreases |b|
  {
    if |b| > 0 {
      if |a| > 0 && a[0] == b[0] && IsSubseq(a[1..], b[1..]) {
        SubseqSameLength(a[1..], b[1..]);
        assert a == [a[0]] + a[1..];
        assert b == [b[0]] + b[1..];
      } else {
        SubseqShrinks(a, b[1..]);
      }
    }
  }

  lemma {:induction false} RemoveCharIsSubseq(s: seq<char>, ch: char)
    ensures IsSubseq(RemoveChar(s, ch), s)
    decreases |s|
  {
    if |s| > 0 {
      RemoveCharIsSubseq(s[1..], ch);
      if s[0] != ch {
        var r := RemoveChar(s, ch);
        assert r[1..] == RemoveChar(s[1..], ch);
      }
    }
  }

  lemma {:induction false} RemoveAbsentChar(s: seq<char>, ch: char)
    requires ch !in s
    ensures RemoveChar(s, ch) == s
    decreases |s|
  {
    if |s| > 0 {
      RemoveAbsentChar(s[1..], ch);
      assert s == [s[0]] + s[1..];
    }
  }

  lemma StripIsSubseq(s: seq<char>, pat: seq<char>)
    requires |pat| <= 1
    ensures IsSubseq(Strip(s, pat), s)
  {
    if |pat| == 0 {
      SubseqRefl(s);
    } else {
      RemoveCharIsSubseq(s, pat[0]);
    }
  }

  /** One character of a string, on its own, is a subsequence of it. */
  lemma {:induction false} SingletonSubseq(x: char, s: seq<char>)
    requires x in s
    ensures IsSubseq([x], s)
    decreases |s|
  {
    if s[0] == x {
      EmptySubseq(s[1..]);
      var one: seq<char> := [x];
      assert one[1..] == [];
    } else {
      SingletonSubseq(x, s[1..]);
    }
  }
}

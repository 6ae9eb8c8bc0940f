/** String operations of the downloader: Python's substring test `sub in s` and
    `s.replace('"', '')`. Strings are sequences of characters. */
module Text {
  import Seqs

  predicate IsPrefix(p: string, s: string)
  {
    |p| <= |s| && s[..|p|] == p
  }

  /** Python's `sub in s` for strings: `sub` occurs in `s` as a contiguous substring.
      The empty string occurs in every string. */
  predicate Contains(s: string, sub: string)
    decreases |s|
  {
    IsPrefix(sub, s) || (|s| > 0 && Contains(s[1..], sub))
  }

  /** Reference definition: `sub` starts at position `i` of `s`. */
  ghost predicate OccursAt(s: string, sub: string, i: int)
  {
    0 <= i && i + |sub| <= |s| && s[i..i + |sub|] == sub
  }

  /** The recursive test agrees with the positional definition of substring occurrence. */
  lemma {:induction false} ContainsIff(s: string, sub: string)
    ensures Contains(s, sub) <==> exists i :: OccursAt(s, sub, i)
    decreases |s|
  {
    if IsPrefix(sub, s) {
      assert OccursAt(s, sub, 0);
    } else if |s| == 0 {
      assert !exists i :: OccursAt(s, sub, i);
    } else {
      ContainsIff(s[1..], sub);
      if Contains(s[1..], sub) {
        var i :| OccursAt(s[1..], sub, i);
        assert s[1..][i..i + |sub|] == s[i + 1..i + 1 + |sub|];
        assert OccursAt(s, sub, i + 1);
      } else {
        forall i | OccursAt(s, sub, i)
          ensures false
        {
          assert i != 0;
          assert s[1..][i - 1..i - 1 + |sub|] == s[i..i + |sub|];
          assert OccursAt(s[1..], sub, i - 1);
        }
      }
    }
  }

  /** A string of the form prefix + sub + suffix contains sub. */
  lemma ContainsInfix(pre: string, sub: string, post: string)
    ensures Contains(pre + sub + post, sub)
  {
    var f := pre + sub + post;
    assert f[|pre|..|pre| + |sub|] == sub;
    assert OccursAt(f, sub, |pre|);
    ContainsIff(f, sub);
  }

  /** A string cannot contain a substring one of whose characters it lacks. */
  lemma MissingCharNotContained(s: string, sub: string, k: int)
    requires 0 <= k < |sub| && sub[k] !in s
    ensures !Contains(s, sub)
  {
  }

  predicate NotQuote(c: char)
  {
    c != '"'
  }

  /** `s.replace('"', '')`: every double quote is removed and every other character is kept,
      in its original order and with its original multiplicity. */
  function StripQuotes(s: string): (r: string)
    ensures '"' !in r
    ensures forall c | c in s && c != '"' :: multiset(r)[c] == multiset(s)[c]
    ensures |r| <= |s|
    ensures Seqs.IsSubseq(r, s)
  {
    Seqs.FilterIsSubseq(NotQuote, s);
    var r := Seqs.Filter(NotQuote, s);
    assert forall i :: 0 <= i < |r| ==> NotQuote(r[i]);
    r
  }

  lemma StripQuotesIdempotent(s: string)
    ensures StripQuotes(StripQuotes(s)) == StripQuotes(s)
  {
    Seqs.FilterIdempotent(NotQuote, s);
  }

  /** A string with no double quote is left unchanged. */
  lemma StripQuotesUnquoted(s: string)
    requires '"' !in s
    ensures StripQuotes(s) == s
  {
    Seqs.FilterKeepsAll(NotQuote, s);
  }

  /** The CSV form of a label field: the bare value between double quotes. */
  function Quote(x: string): string
  {
    "\"" + x + "\""
  }

  /** Quoting a quote-free field and stripping it again gives back the bare value. */
  lemma StripQuotesOfQuoted(x: string)
    requires '"' !in x
    ensures StripQuotes(Quote(x)) == x
  {
    Seqs.FilterConcat(NotQuote, "\"" + x, "\"");
    Seqs.FilterConcat(NotQuote, "\"", x);
    Seqs.FilterKeepsAll(NotQuote, x);
  }

  /** The surrounding quotes of a field never affect whether a quote-free identifier
      occurs in it. */
  lemma QuotedContainsIff(x: string, sub: string)
    requires '"' !in sub
    ensures Contains(Quote(x), sub) <==> Contains(x, sub)
  {
    var q := Quote(x);
    assert |q| == |x| + 2 && q[0] == '"' && q[|q| - 1] == '"';
    assert q[1..|q| - 1] == x;
    ContainsIff(q, sub);
    ContainsIff(x, sub);
    if |sub| == 0 {
      assert OccursAt(x, sub, 0);
      assert OccursAt(q, sub, 0);
    } else {
      if i :| OccursAt(q, sub, i) {
        assert q[i] == sub[0];
        assert i >= 1;
        assert q[i + |sub| - 1] == sub[|sub| - 1];
        assert i + |sub| <= |q| - 1;
        assert x[i - 1..i - 1 + |sub|] == q[i..i + |sub|];
        assert OccursAt(x, sub, i - 1);
      }
      if j :| OccursAt(x, sub, j) {
        assert q[j + 1..j + 1 + |sub|] == x[j..j + |sub|];
        assert OccursAt(q, sub, j + 1);
      }
    }
  }
}

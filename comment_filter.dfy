/**
 * What `filter_comment` does to a stream of items: it drops exactly the
 * comment tokens and keeps everything else, errors included, in order.
 */
module CommentFilter {
  import opened Wrappers
  import opened Tokens
  import opened Lexer

  /** Filtering works item by item, so it distributes over concatenation and keeps order. */
  lemma {:induction false} FilterCommentAppend(a: seq<TokenResult>, b: seq<TokenResult>)
    ensures FilterComment(a + b) == FilterComment(a) + FilterComment(b)
  {
    if a == [] {
      assert a + b == b;
    } else {
      assert (a + b)[0] == a[0] && (a + b)[1..] == a[1..] + b;
      FilterCommentAppend(a[1..], b);
    }
  }

  /**
   * Each item that is kept occurs as often as in the input; each comment
   * token does not occur at all.
   */
  lemma {:induction false} FilterCommentCount(rs: seq<TokenResult>, r: TokenResult)
    ensures multiset(FilterComment(rs))[r] == if Keeps(r) then multiset(rs)[r] else 0
  {
    if rs != [] {
      FilterCommentCount(rs[1..], r);
      assert rs == [rs[0]] + rs[1..];
    }
  }

  /** The input comes back unchanged exactly when it holds no comment token. */
  lemma {:induction false} FilterCommentIdentity(rs: seq<TokenResult>)
    ensures FilterComment(rs) == rs <==> forall i :: 0 <= i < |rs| ==> Keeps(rs[i])
  {
    if rs != [] {
      FilterCommentIdentity(rs[1..]);
      assert forall i :: 0 < i < |rs| ==> rs[i] == rs[1..][i - 1];
      if !Keeps(rs[0]) {
        assert |FilterComment(rs)| < |rs|;
      }
    }
  }

  /** Filtering twice is filtering once. */
  lemma FilterCommentIdempotent(rs: seq<TokenResult>)
    ensures FilterComment(FilterComment(rs)) == FilterComment(rs)
  {
    FilterCommentIdentity(FilterComment(rs));
  }
}

/** The cleaning step of `parseJSON` (services/geminiService.ts): model
    replies sometimes wrap their JSON in a markdown code fence, so every
    "```json" and then every "```" is removed and the rest is trimmed before
    it is handed to the JSON parser (which is not modelled). */
module JsonClean {
  import opened Text

  const Fence: string := "```"
  const JsonFence: string := "```json"

  /** The text the JSON parser receives. It never contains a fence, and it
      is a trimmed string. */
  function CleanJsonText(text: string): (r: string)
    ensures !Contains(r, Fence)
    ensures |r| > 0 ==> !IsWhitespace(r[0]) && !IsWhitespace(r[|r| - 1])
    ensures |r| <= |text|
  {
    var unfenced := RemoveAll(RemoveAll(text, JsonFence), Fence);
    RemoveFencesIsFenceFree(RemoveAll(text, JsonFence));
    TrimKeepsFenceFree(unfenced);
    Trim(unfenced)
  }

  /** If what is left after removing fences starts with a backtick, so did
      the input: a removed fence never exposes a backtick that was not
      already at the front. */
  lemma {:induction false} FirstBacktickKept(t: string)
    ensures var r := RemoveAll(t, Fence);
      |r| > 0 && r[0] == '`' ==> |t| > 0 && t[0] == '`'
    decreases |t|
  {
    if |t| >= |Fence| && t[..|Fence|] != Fence {
      assert RemoveAll(t, Fence) == [t[0]] + RemoveAll(t[1..], Fence);
    }
  }

  /** Removing every fence, left to right and without overlap, leaves no
      fence behind: a backtick that is kept cannot be followed by two more
      kept backticks, since then the three would have formed a fence in the
      input. */
  lemma {:induction false} RemoveFencesIsFenceFree(s: string)
    ensures !Contains(RemoveAll(s, Fence), Fence)
    decreases |s|
  {
    if |s| < |Fence| {
      assert RemoveAll(s, Fence) == s;
      NoFenceInShort(s);
    } else if s[..|Fence|] == Fence {
      RemoveFencesIsFenceFree(s[|Fence|..]);
    } else {
      RemoveFencesIsFenceFree(s[1..]);
      KeptCharAddsNoFence(s);
    }
  }

  /** When `s` does not start with a fence its first char is kept; that char
      cannot start a fence in the result, so a fence-free rest stays
      fence-free. */
  lemma KeptCharAddsNoFence(s: string)
    requires |s| >= |Fence| && s[..|Fence|] != Fence
    requires !Contains(RemoveAll(s[1..], Fence), Fence)
    ensures !Contains(RemoveAll(s, Fence), Fence)
  {
    var r := RemoveAll(s, Fence);
    KeepsHead(s);
    assert r[1..] == RemoveAll(s[1..], Fence);
    NoFenceAtHead(s);
  }

  /** Removal keeps a first char that does not start a fence. */
  lemma KeepsHead(s: string)
    requires |s| >= |Fence| && s[..|Fence|] != Fence
    ensures RemoveAll(s, Fence) == [s[0]] + RemoveAll(s[1..], Fence)
  {
  }

  /** The kept first char never starts a fence in the result. */
  lemma NoFenceAtHead(s: string)
    requires |s| >= |Fence| && s[..|Fence|] != Fence
    ensures !StartsWith(RemoveAll(s, Fence), Fence)
  {
    var rest := RemoveAll(s[1..], Fence);
    KeepsHead(s);
    FenceChars(s);
    FenceChars([s[0]] + rest);
    if |rest| >= 2 && rest[0] == '`' && rest[1] == '`' {
      SecondBacktickKept(s[1..]);
    }
  }

  /** A string starts with a fence exactly when its first three chars are
      backticks. */
  lemma FenceChars(x: string)
    ensures StartsWith(x, Fence) <==> |x| >= 3 && x[0] == '`' && x[1] == '`' && x[2] == '`'
  {
    if |x| >= 3 && x[0] == '`' && x[1] == '`' && x[2] == '`' {
      assert x[..3] == Fence;
    }
  }

  /** If what is left starts with two backticks, so did the input. */
  lemma SecondBacktickKept(t: string)
    requires |RemoveAll(t, Fence)| >= 2
    requires RemoveAll(t, Fence)[0] == '`' && RemoveAll(t, Fence)[1] == '`'
    ensures |t| >= 2 && t[0] == '`' && t[1] == '`'
  {
    FirstBacktickKept(t);
    if |t| >= |Fence| && t[..|Fence|] == Fence {
      assert t[1] == Fence[1];
    } else if |t| >= |Fence| {
      assert RemoveAll(t, Fence) == [t[0]] + RemoveAll(t[1..], Fence);
      FirstBacktickKept(t[1..]);
    }
  }

  /** A string shorter than a fence holds none. */
  lemma NoFenceInShort(s: string)
    requires |s| < |Fence|
    ensures !Contains(s, Fence)
  {
    ContainsIff(s, Fence);
  }

  /** A contiguous piece of a fence-free string is fence-free. */
  lemma SliceKeepsFenceFree(s: string, i: int, j: int)
    requires 0 <= i <= j <= |s|
    requires !Contains(s, Fence)
    ensures !Contains(s[i..j], Fence)
  {
    ContainsIff(s, Fence);
    ContainsIff(s[i..j], Fence);
    if exists k :: OccursAt(s[i..j], Fence, k) {
      var k :| OccursAt(s[i..j], Fence, k);
      var t := s[i..j];
      forall m | 0 <= m < |Fence|
        ensures s[i + k + m] == Fence[m]
      {
        assert t[k..k + |Fence|][m] == Fence[m];
        assert t[k..k + |Fence|][m] == t[k + m];
        assert t[k + m] == s[i + k + m];
      }
      assert s[i + k..i + k + |Fence|] == Fence;
      assert OccursAt(s, Fence, i + k);
    }
  }

  lemma TrimKeepsFenceFree(s: string)
    requires !Contains(s, Fence)
    ensures !Contains(Trim(s), Fence)
  {
    var i :| TrimmedAt(s, Trim(s), i);
    SliceKeepsFenceFree(s, i, i + |Trim(s)|);
  }

  /** A string holding no "```" holds no "```json" either. */
  lemma JsonFenceNeedsFence(s: string)
    requires !Contains(s, Fence)
    ensures !Contains(s, JsonFence)
  {
    ContainsIff(s, Fence);
    ContainsIff(s, JsonFence);
  }

  /** Text without any fence is only trimmed. */
  lemma {:induction false} UnfencedIsOnlyTrimmed(text: string)
    requires !Contains(text, Fence)
    ensures CleanJsonText(text) == Trim(text)
  {
    JsonFenceNeedsFence(text);
    RemoveAllAbsent(text, JsonFence);
    RemoveAllAbsent(text, Fence);
  }

  /** Text without backticks. */
  predicate NoBacktick(s: string) {
    forall k :: 0 <= k < |s| ==> s[k] != '`'
  }

  /** The usual fenced reply: a "```json" ... "```" block with text around
      it, none of which holds a backtick, reaches the parser as the text
      with both fences cut out, trimmed. The text after the block must not
      start with "json", since "```" followed by it is a second opening
      fence. */
  lemma FencedReplyIsUnwrapped(reply: string, pre: string, body: string, post: string)
    requires NoBacktick(pre) && NoBacktick(body) && NoBacktick(post)
    requires !StartsWith(post, "json")
    requires reply == pre + JsonFence + body + Fence + post
    ensures CleanJsonText(reply) == Trim(pre + body + post)
  {
    var s := reply;
    assert s == pre + (JsonFence + (body + (Fence + post)));
    RemoveAllKeepsPiece(pre, JsonFence + (body + (Fence + post)), JsonFence);
    RemoveAllLeading(JsonFence, body + (Fence + post));
    RemoveAllKeepsPiece(body, Fence + post, JsonFence);
    ClosingFenceOpensNothing(post);
    var once := pre + (body + (Fence + post));
    assert RemoveAll(s, JsonFence) == once;
    assert once == (pre + body) + (Fence + post);
    RemoveAllKeepsPiece(pre + body, Fence + post, Fence);
    RemoveAllLeading(Fence, post);
    RemoveAllKeepsPiece(post, [], Fence);
    assert post + [] == post;
    assert RemoveAll(once, Fence) == pre + body + post;
  }

  /** A closing "```" followed by text without backticks that does not
      start with "json" holds no "```json". */
  lemma ClosingFenceOpensNothing(post: string)
    requires NoBacktick(post) && !StartsWith(post, "json")
    ensures RemoveAll(Fence + post, JsonFence) == Fence + post
  {
    var s := Fence + post;
    forall i | 0 <= i
      ensures !OccursAt(s, JsonFence, i)
    {
      if i + |JsonFence| > |s| {
      } else if i >= 1 {
        assert s[i..i + |JsonFence|][2] == post[i - 1] != JsonFence[2];
      } else {
        assert s[..4] == Fence + post[..1];
        assert s[3..7] == post[..4] != JsonFence[3..7];
      }
    }
    ContainsIff(s, JsonFence);
    RemoveAllAbsent(s, JsonFence);
  }

  /** A bare "```json" ... "```" block reaches the parser as its trimmed
      content. */
  lemma FencedBlockIsUnwrapped(body: string)
    requires NoBacktick(body)
    ensures CleanJsonText(JsonFence + body + Fence) == Trim(body)
  {
    var none: string := [];
    assert NoBacktick(none) && !StartsWith(none, "json");
    assert JsonFence + body + Fence == none + JsonFence + body + Fence + none;
    FencedReplyIsUnwrapped(JsonFence + body + Fence, none, body, none);
    assert none + body + none == body;
  }

  /** Cleaning cleaned text changes nothing. */
  lemma {:induction false} CleanIdempotent(text: string)
    ensures CleanJsonText(CleanJsonText(text)) == CleanJsonText(text)
  {
    var c := CleanJsonText(text);
    UnfencedIsOnlyTrimmed(c);
    var u := RemoveAll(RemoveAll(text, JsonFence), Fence);
    assert c == Trim(u);
    TrimIdempotent(u);
  }
}

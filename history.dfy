/**
 * The list operations behind the session's history (App.tsx): the newest
 * document comes first and at most `MaxHistoryLength` documents are kept.
 */
module History {
  /** `MAX_HISTORY_LENGTH`. */
  const MaxHistoryLength: nat := 20

  function Min(a: int, b: int): int { if a <= b then a else b }

  /** `[doc, ...prev].slice(0, MAX_HISTORY_LENGTH)`. */
  function Push(prev: seq<string>, doc: string): (r: seq<string>)
    ensures |r| == Min(|prev| + 1, MaxHistoryLength)
    ensures r[0] == doc
    ensures r[1..] == prev[..|r| - 1]
  {
    var all := [doc] + prev;
    assert all[1..] == prev;
    all[..Min(|prev| + 1, MaxHistoryLength)]
  }

  /** Pushing `docs` one after the other, first to last. */
  function PushAll(prev: seq<string>, docs: seq<string>): seq<string>
    decreases |docs|
  {
    if docs == [] then prev else PushAll(Push(prev, docs[0]), docs[1..])
  }

  function Reverse(s: seq<string>): (r: seq<string>)
    ensures |r| == |s| && forall i :: 0 <= i < |s| ==> r[i] == s[|s| - 1 - i]
  {
    if s == [] then [] else Reverse(s[1..]) + [s[0]]
  }

  /**
   * After any number of pushes the history holds the most recent documents,
   * newest first, as many of them as fit: the oldest are evicted first. A
   * history installed from a link or a file may be longer than the cap; the
   * first push cuts it down.
   */
  lemma {:induction false} PushAllKeepsNewest(prev: seq<string>, docs: seq<string>)
    requires docs != [] || |prev| <= MaxHistoryLength
    ensures PushAll(prev, docs) == (Reverse(docs) + prev)[..Min(|docs| + |prev|, MaxHistoryLength)]
    decreases |docs|
  {
    if docs == [] {
      assert Reverse(docs) + prev == prev;
    } else {
      var next := Push(prev, docs[0]);
      PushAllKeepsNewest(next, docs[1..]);
      var n := Min(|docs| + |prev|, MaxHistoryLength);
      var m := Min(|docs| - 1 + |next|, MaxHistoryLength);
      assert m == n;
      var lhs := (Reverse(docs[1..]) + next)[..m];
      var rhs := (Reverse(docs) + prev)[..n];
      assert Reverse(docs) == Reverse(docs[1..]) + [docs[0]];
      forall i | 0 <= i < n
        ensures lhs[i] == rhs[i]
      {
        var k := |docs| - 1;
        if i < k {
        } else if i == k {
        } else {
          assert next[i - k] == prev[i - k - 1];
        }
      }
      assert lhs == rhs;
    }
  }

  /** `prev.filter((_, i) => i !== index)`. */
  function Without(h: seq<string>, index: int): seq<string>
  {
    if h == [] then [] else (if index == 0 then [] else [h[0]]) + Without(h[1..], index - 1)
  }

  /** Filtering by position removes exactly the entry at `index`, or nothing when `index` is out of range. */
  lemma {:induction false} WithoutRemovesOne(h: seq<string>, index: int)
    ensures 0 <= index < |h| ==> Without(h, index) == h[..index] + h[index + 1..]
    ensures !(0 <= index < |h|) ==> Without(h, index) == h
  {
    if h != [] {
      WithoutRemovesOne(h[1..], index - 1);
      if index == 0 {
        assert h[1..] == h[..0] + h[1..];
      } else if 0 < index < |h| {
        assert h[..index] == [h[0]] + h[1..][..index - 1];
        assert h[index + 1..] == h[1..][index..];
      } else {
        assert h == [h[0]] + h[1..];
      }
    }
  }

  /** `prev.length > 0 ? [prev[prev.length - 1]] : []`. */
  function KeepOldest(h: seq<string>): (r: seq<string>)
    ensures h == [] ==> r == []
    ensures h != [] ==> r == [h[|h| - 1]]
  {
    if |h| > 0 then [h[|h| - 1]] else []
  }
}

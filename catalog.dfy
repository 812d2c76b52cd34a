/**
 * `fetch_available_models`: the ids of a model listing are narrowed to the chat
 * models, sorted from the greatest id to the smallest, and a failed listing is
 * answered with a fixed list instead of an error.
 */
module ModelCatalog {
  import opened Wrappers
  import opened Text

  /** The list returned when the listing cannot be obtained. */
  const Fallback: seq<string> := ["gpt-4o", "gpt-4o-mini", "gpt-4-turbo", "gpt-4", "gpt-3.5-turbo"]

  /** An id is kept when its lowercase form contains "gpt" or "chat". */
  predicate IsChatModel(id: string)
  {
    Contains(Lower(id), "gpt") || Contains(Lower(id), "chat")
  }

  /** The filter ignores case: an id and its lowercase form are kept or dropped together. */
  lemma IsChatModelIgnoresCase(id: string)
    ensures IsChatModel(Lower(id)) <==> IsChatModel(id)
  {
    LowerIdempotent(id);
  }

  /**
   * The filter is case-insensitive: an id is kept exactly when some window of
   * it spells "gpt" or "chat" with each letter in either case.
   */
  lemma IsChatModelCaseInsensitive(id: string)
    ensures IsChatModel(id) <==> ContainsIgnoringCase(id, "gpt") || ContainsIgnoringCase(id, "chat")
  {
    assert IsLowerWord("gpt") && IsLowerWord("chat");
    ContainsLower(id, "gpt");
    ContainsLower(id, "chat");
  }

  /** The list comprehension that keeps the chat models, in listing order. */
  function ChatModels(ids: seq<string>): (r: seq<string>)
    ensures forall x :: multiset(r)[x] == if IsChatModel(x) then multiset(ids)[x] else 0
  {
    if ids == [] then []
    else
      assert ids == [ids[0]] + ids[1..];
      (if IsChatModel(ids[0]) then [ids[0]] else []) + ChatModels(ids[1..])
  }

  /** Filter exactness: an id is kept exactly when it is listed and is a chat model. */
  lemma ChatModelsExact(ids: seq<string>, x: string)
    ensures x in ChatModels(ids) <==> x in ids && IsChatModel(x)
  {
    assert x in ChatModels(ids) <==> x in multiset(ChatModels(ids));
    assert x in ids <==> x in multiset(ids);
  }

  /** Non-increasing in Python's string order. */
  predicate SortedDescending(s: seq<string>)
  {
    forall i, j :: 0 <= i < j < |s| ==> LexLe(s[j], s[i])
  }

  /** Exchanges the neighbours at `j - 1` and `j`. */
  method SwapWithPrevious(a: array<string>, j: int)
    requires 0 < j < a.Length
    modifies a
    ensures a[..] == old(a[..])[j - 1 := old(a[j])][j := old(a[j - 1])]
    ensures multiset(a[..]) == old(multiset(a[..]))
  {
    a[j - 1], a[j] := a[j], a[j - 1];
  }

  /**
   * One step of the sort: moves `a[i]` left past every smaller element, so
   * that `a[..i + 1]` is non-increasing when `a[..i]` was.
   */
  method InsertDescending(a: array<string>, i: int)
    requires 0 <= i < a.Length
    requires SortedDescending(a[..i])
    modifies a
    ensures SortedDescending(a[..i + 1])
    ensures a[i + 1..] == old(a[i + 1..])
    ensures multiset(a[..]) == old(multiset(a[..]))
  {
    var j := i;
    while j > 0 && !LexLe(a[j], a[j - 1])
      invariant 0 <= j <= i
      invariant forall p, q :: 0 <= p < q <= i && p != j && q != j ==> LexLe(a[q], a[p])
      invariant forall q :: j < q <= i ==> LexLe(a[q], a[j])
      invariant a[i + 1..] == old(a[i + 1..])
      invariant multiset(a[..]) == old(multiset(a[..]))
    {
      LexLeTotal(a[j], a[j - 1]);
      SwapWithPrevious(a, j);
      j := j - 1;
    }
    forall p, q | 0 <= p < q <= i
      ensures LexLe(a[q], a[p])
    {
      if q == j && p < j - 1 {
        LexLeTransitive(a[q], a[j - 1], a[p]);
      }
    }
  }

  /**
   * `chat_models.sort(reverse=True)`: sorts the array in place (insertion
   * sort), greatest first.
   */
  method SortDescending(a: array<string>)
    modifies a
    ensures SortedDescending(a[..])
    ensures multiset(a[..]) == old(multiset(a[..]))
  {
    for i := 0 to a.Length
      invariant SortedDescending(a[..i])
      invariant multiset(a[..]) == old(multiset(a[..]))
    {
      InsertDescending(a, i);
    }
    assert a[..a.Length] == a[..];
  }

  /**
   * The part of `fetch_available_models` after the listing call: `listing` is
   * the ids the listing returned, or `None` when the call failed.
   */
  method FetchAvailableModels(listing: Option<seq<string>>) returns (models: seq<string>)
    ensures listing.None? ==> models == Fallback
    ensures listing.Some? ==> SortedDescending(models)
    ensures listing.Some? ==> multiset(models) == multiset(ChatModels(listing.value))
    ensures listing.Some? ==> forall x :: x in models <==> x in listing.value && IsChatModel(x)
  {
    match listing {
      case None =>
        models := Fallback;
      case Some(ids) =>
        var chatModels := ChatModels(ids);
        var a := new string[|chatModels|](i requires 0 <= i < |chatModels| => chatModels[i]);
        assert a[..] == chatModels;
        SortDescending(a);
        models := a[..];
        forall x
          ensures x in models <==> x in ids && IsChatModel(x)
        {
          assert x in models <==> x in multiset(models);
          ChatModelsExact(ids, x);
        }
    }
  }

  /** The head of a non-increasing list is its greatest element. */
  lemma SortedHeadIsGreatest(s: seq<string>, k: nat)
    requires SortedDescending(s) && k < |s|
    ensures LexLe(s[k], s[0])
  {
    if k == 0 {
      LexLeReflexive(s[0]);
    }
  }

  /** Dropping the head keeps a list non-increasing. */
  lemma SortedDescendingTail(s: seq<string>)
    requires SortedDescending(s) && s != []
    ensures SortedDescending(s[1..])
  {
    forall i, j | 0 <= i < j < |s| - 1 ensures LexLe(s[1..][j], s[1..][i]) {
      assert s[1..][j] == s[j + 1] && s[1..][i] == s[i + 1];
    }
  }

  /** Lists with the same elements and the same head have tails with the same elements. */
  lemma SameTailElements(s: seq<string>, t: seq<string>)
    requires s != [] && t != [] && s[0] == t[0] && multiset(s) == multiset(t)
    ensures multiset(s[1..]) == multiset(t[1..])
  {
    assert s == [s[0]] + s[1..] && t == [t[0]] + t[1..];
    assert multiset(s) == multiset{s[0]} + multiset(s[1..]);
    assert multiset(t) == multiset{t[0]} + multiset(t[1..]);
    forall x ensures multiset(s[1..])[x] == multiset(t[1..])[x] {
      assert multiset(s)[x] == multiset{s[0]}[x] + multiset(s[1..])[x];
      assert multiset(t)[x] == multiset{t[0]}[x] + multiset(t[1..])[x];
    }
  }

  /**
   * Sorting has one answer: two non-increasing lists with the same elements
   * are equal, so the successful result is determined by the listing.
   */
  lemma {:induction false} SortedDescendingUnique(s: seq<string>, t: seq<string>)
    requires SortedDescending(s) && SortedDescending(t)
    requires multiset(s) == multiset(t)
    ensures s == t
    decreases |s|
  {
    if s == [] {
      assert |t| == |multiset(t)| == 0;
    } else {
      assert |t| == |multiset(t)| == |s|;
      assert s[0] in multiset(t) && t[0] in multiset(s);
      var k :| 0 <= k < |t| && t[k] == s[0];
      var m :| 0 <= m < |s| && s[m] == t[0];
      SortedHeadIsGreatest(t, k);
      SortedHeadIsGreatest(s, m);
      LexLeAntisymmetric(s[0], t[0]);
      SameTailElements(s, t);
      SortedDescendingTail(s);
      SortedDescendingTail(t);
      SortedDescendingUnique(s[1..], t[1..]);
      assert s == [s[0]] + s[1..] && t == [t[0]] + t[1..];
    }
  }

  /** Every id of the fallback list passes the chat-model filter. */
  lemma FallbackAreChatModels()
    ensures forall x :: x in Fallback ==> IsChatModel(x)
  {
    forall x | x in Fallback
      ensures IsChatModel(x)
    {
      assert Lower(x)[0..3] == "gpt";
      assert OccursAt(Lower(x), "gpt", 0);
    }
  }

  /**
   * The fallback list is not in the order a successful call produces: "gpt-4o"
   * sorts before its extension "gpt-4o-mini" yet is listed first.
   */
  lemma FallbackNotSortedDescending()
    ensures !SortedDescending(Fallback)
  {
    assert LexLe(Fallback[0], Fallback[1]);
    assert Fallback[0] != Fallback[1];
    if LexLe(Fallback[1], Fallback[0]) {
      LexLeAntisymmetric(Fallback[0], Fallback[1]);
    }
  }
}

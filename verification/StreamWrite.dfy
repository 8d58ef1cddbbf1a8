/**
 * Buffer views of a vectored stream write: a view is taken on every item before the request is handed to
 * libuv and given back exactly once, by the completion callback or by the error path of the call.
 */
module StreamWrite {
  datatype Outcome = Done | TooLong | Empty | NoBuffer(at: nat) | UvError(code: int)

  const INT_MAX := 0x7fff_ffff

  /** How many views are held on each object that exports a buffer; those in `refusing` grant none. */
  class Exports {
    var held: multiset<int>
    const refusing: set<int>

    constructor (no: set<int>)
      ensures held == multiset{} && refusing == no
    {
      held, refusing := multiset{}, no;
    }

    method GetBuffer(item: int) returns (ok: bool)
      modifies this
      ensures ok == (item !in refusing)
      ensures held == if ok then old(held) + multiset{item} else old(held)
    {
      ok := item !in refusing;
      if ok {
        held := held + multiset{item};
      }
    }

    method ReleaseBuffer(item: int)
      requires item in held
      modifies this
      ensures held == old(held) - multiset{item}
    {
      held := held - multiset{item};
    }
  }

  /** The write context: a small inline array of views, or a longer one for longer writes. */
  class WriteContext {
    var views: array<int>
    var count: nat

    constructor (n: nat)
      ensures fresh(views) && count == n && views.Length == if n > 4 then n else 4
    {
      views := new int[if n > 4 then n else 4];
      count := n;
    }
  }

  /** A prefix, as a bag, one element longer. */
  lemma BagOfNext(s: seq<int>, k: nat)
    requires k < |s|
    ensures multiset(s[..k + 1]) == multiset(s[..k]) + multiset{s[k]}
  {
    assert s[..k + 1] == s[..k] + [s[k]];
  }

  lemma BagOfPrefix(s: seq<int>, j: nat, k: nat)
    requires j <= k <= |s|
    ensures multiset(s[..j]) <= multiset(s[..k])
  {
    assert s[..k] == s[..j] + s[j..k];
  }

  lemma GiveBack(h: multiset<int>, b: multiset<int>, x: int)
    requires b + multiset{x} <= h
    ensures x in h - b && h - b - multiset{x} == h - (b + multiset{x})
  {
    assert (b + multiset{x})[x] == b[x] + 1 <= h[x];
  }

  lemma NextView(h: multiset<int>, s: seq<int>, j: nat)
    requires j < |s| && multiset(s) <= h
    ensures s[j] in h - multiset(s[..j])
    ensures h - multiset(s[..j]) - multiset{s[j]} == h - multiset(s[..j + 1])
  {
    BagOfNext(s, j);
    BagOfPrefix(s, j + 1, |s|);
    assert s[..|s|] == s;
    GiveBack(h, multiset(s[..j]), s[j]);
  }

  /** The first `n` views are given back, in order. */
  method ReleaseViews(ex: Exports, views: array<int>, n: nat)
    requires n <= views.Length && multiset(views[..n]) <= ex.held
    modifies ex
    ensures ex.held == old(ex.held) - multiset(views[..n])
  {
    ghost var s := views[..n];
    ghost var h := ex.held;
    for j := 0 to n
      invariant ex.held == h - multiset(s[..j])
    {
      NextView(h, s, j);
      ex.ReleaseBuffer(views[j]);
    }
    assert s[..n] == s;
  }

  /** The first item that refuses its buffer, or the number of items. */
  function FirstRefusal(items: seq<int>, refusing: set<int>): (k: nat)
    ensures k <= |items|
    ensures k < |items| ==> items[k] in refusing
    ensures forall j :: 0 <= j < k ==> items[j] !in refusing
  {
    if items == [] || items[0] in refusing then 0 else 1 + FirstRefusal(items[1..], refusing)
  }

  lemma FirstRefusalIs(items: seq<int>, refusing: set<int>, i: nat)
    requires i < |items| && i <= FirstRefusal(items, refusing)
    ensures items[i] in refusing <==> i == FirstRefusal(items, refusing)
  {
  }

  /** Views are taken in order until an item refuses. */
  method TakeViews(ex: Exports, views: array<int>, items: seq<int>) returns (i: nat)
    requires |items| <= views.Length
    modifies ex, views
    ensures i == FirstRefusal(items, ex.refusing)
    ensures views[..i] == items[..i]
    ensures ex.held == old(ex.held) + multiset(items[..i])
  {
    i := 0;
    while i < |items|
      invariant 0 <= i <= |items| && i <= FirstRefusal(items, ex.refusing)
      invariant views[..i] == items[..i]
      invariant ex.held == old(ex.held) + multiset(items[..i])
    {
      FirstRefusalIs(items, ex.refusing, i);
      var ok := ex.GetBuffer(items[i]);
      if !ok {
        return;
      }
      views[i] := items[i];
      BagOfNext(items, i);
      i := i + 1;
    }
  }

  /**
   * `pyuv__stream_write_sequence`, with libuv's answer `err`. On success the request holds one view per
   * item, in order; on every failure no view is left behind.
   */
  method WriteSequence(ex: Exports, items: seq<int>, err: int) returns (r: Outcome, ctx: WriteContext?)
    modifies ex
    ensures r.Done? <==> 0 < |items| <= INT_MAX && FirstRefusal(items, ex.refusing) == |items| && err >= 0
    ensures r.Done? ==> ctx != null && fresh(ctx) && ctx.count == |items| <= ctx.views.Length
                        && ctx.views[..ctx.count] == items && ex.held == old(ex.held) + multiset(items)
    ensures !r.Done? ==> ctx == null && ex.held == old(ex.held)
    ensures r.TooLong? <==> |items| > INT_MAX
    ensures r.Empty? <==> items == []
    ensures r.NoBuffer? <==> 0 < |items| <= INT_MAX && FirstRefusal(items, ex.refusing) < |items|
    ensures r.NoBuffer? ==> r.at == FirstRefusal(items, ex.refusing)
    ensures r.UvError? ==> r.code == err < 0
  {
    if |items| > INT_MAX { return TooLong, null; }
    if |items| == 0 { return Empty, null; }
    var c := new WriteContext(|items|);
    var i := TakeViews(ex, c.views, items);
    if i < |items| {
      ReleaseViews(ex, c.views, i);
      return NoBuffer(i), null;
    }
    if err < 0 {
      ReleaseViews(ex, c.views, i);
      return UvError(err), null;
    }
    assert c.views[..i] == items[..i] == items;
    return Done, c;
  }

  /** The view side of `pyuv__stream_write_cb`. */
  method WriteDone(ex: Exports, ctx: WriteContext)
    requires ctx.count <= ctx.views.Length && multiset(ctx.views[..ctx.count]) <= ex.held
    modifies ex
    ensures ex.held == old(ex.held) - multiset(ctx.views[..ctx.count])
  {
    ReleaseViews(ex, ctx.views, ctx.count);
  }
}

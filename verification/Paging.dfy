/** The two paging clients over a stable collection: the TypeScript generator and the Go iterator. */
module Paging {
  function Min(a: int, b: int): int {
    if a < b then a else b
  }

  /** Pages of `size` items needed for `n` items. */
  function Pages(n: nat, size: nat): nat
    requires size >= 1
  {
    (n + size - 1) / size
  }

  lemma PagesSuffice(n: nat, size: nat)
    requires size >= 1
    ensures Pages(n, size) * size >= n && (Pages(n, size) == 0 || (Pages(n, size) - 1) * size < n)
  {
  }

  /** What the server sends for page `page` when it serves `size` items a page. */
  function Page<T>(items: seq<T>, page: nat, size: nat): seq<T>
    requires page >= 1
  {
    PageBounds(page, size);
    items[Min((page - 1) * size, |items|)..Min(page * size, |items|)]
  }

  lemma PageBounds(page: nat, size: nat)
    requires page >= 1
    ensures 0 <= (page - 1) * size <= page * size
  {
    assert page * size == (page - 1) * size + size;
  }

  // ---- the TypeScript generator ----

  const ACCESS_CLAMP: nat := 100    // scoped `list`
  const SHARED_CLAMP: nat := 65500  // `buildQueryString`

  /** Requests the loop makes: it stops at the first page with `page * size >= total`. */
  function Requests(n: nat, size: nat): nat
    requires size >= 1
  {
    if n == 0 then 1 else Pages(n, size)
  }

  /**
   * `listAll`: the request clamps the page size, the loop bound does not. What it yields is a prefix of
   * the collection, and the contract says which.
   */
  method ListAll<T>(items: seq<T>, size: nat, clamp: nat) returns (yielded: seq<T>, requests: nat)
    requires size >= 1 && clamp >= 1
    ensures requests == Requests(|items|, size)
    ensures yielded == items[..Min(|items|, requests * Min(size, clamp))]
  {
    var page := 1;
    yielded := [];
    while true
      invariant BeforePage(items, size, clamp, page, yielded)
      decreases |items| - (page - 1) * size
    {
      PageBounds(page, Min(size, clamp));
      var result := Page(items, page, Min(size, clamp));
      ghost var before := yielded;
      for i := 0 to |result|
        invariant yielded == before + result[..i]
      {
        yielded := yielded + [result[i]];
      }
      assert result[..|result|] == result;
      AfterPage(items, size, clamp, page, before);
      if page * size >= |items| {
        StopsAt(|items|, size, page);
        return yielded, page;
      }
      page := page + 1;
    }
  }

  /** The pages before `page` have been yielded, and they were not all. */
  ghost predicate BeforePage<T>(items: seq<T>, size: nat, clamp: nat, page: nat, yielded: seq<T>) {
    && size >= 1 && clamp >= 1 && page >= 1 && (page > 1 ==> (page - 1) * size < |items|)
    && 0 <= (page - 1) * Min(size, clamp)
    && yielded == items[..Min(|items|, (page - 1) * Min(size, clamp))]
  }

  lemma AfterPage<T>(items: seq<T>, size: nat, clamp: nat, page: nat, yielded: seq<T>)
    requires BeforePage(items, size, clamp, page, yielded)
    ensures var served := Min(size, clamp);
            && 0 <= page * served && page * size == (page - 1) * size + size
            && yielded + Page(items, page, served) == items[..Min(|items|, page * served)]
  {
    var served := Min(size, clamp);
    PageBounds(page, served);
    assert page * size == (page - 1) * size + size;
  }

  /** `listAll` of gateway access, whose `list` clamps to 100. */
  method ListAllAccess<T>(items: seq<T>, size: nat) returns (yielded: seq<T>)
    requires size >= 1
    ensures yielded <= items
    ensures size <= 100 ==> yielded == items
    ensures size > 100 && |items| > 0 ==>
      (yielded == items <==> exists p: nat :: p >= 1 && (p - 1) * size < |items| && |items| <= p * 100)
  {
    yielded := ListAllClamped(items, size, ACCESS_CLAMP);
  }

  /** `listAll` of gateways, whose query string clamps to 65500. */
  method ListAllGateways<T>(items: seq<T>, size: nat) returns (yielded: seq<T>)
    requires size >= 1
    ensures yielded <= items
    ensures size <= 65500 ==> yielded == items
    ensures size > 65500 && |items| > 0 ==>
      (yielded == items <==> exists p: nat :: p >= 1 && (p - 1) * size < |items| && |items| <= p * 65500)
  {
    yielded := ListAllClamped(items, size, SHARED_CLAMP);
  }

  method ListAllClamped<T>(items: seq<T>, size: nat, clamp: nat) returns (yielded: seq<T>)
    requires size >= 1 && clamp >= 1
    ensures yielded <= items
    ensures size <= clamp ==> yielded == items
    ensures size > clamp && |items| > 0 ==>
      (yielded == items <==> exists p: nat :: p >= 1 && (p - 1) * size < |items| && |items| <= p * clamp)
  {
    var requests;
    yielded, requests := ListAll(items, size, clamp);
    if size <= clamp {
      CompleteWithinClamp(|items|, size, clamp);
    } else {
      CompleteBeyondClampIff(|items|, size, clamp);
    }
  }

  lemma StopsAt(n: nat, size: nat, page: nat)
    requires size >= 1 && page >= 1 && page * size >= n && (page > 1 ==> (page - 1) * size < n)
    ensures page == Requests(n, size)
  {
    if n > 0 {
      var p := Pages(n, size);
      PagesSuffice(n, size);
      assert p >= 1;
      if p < page {
        Monotone(p, page - 1, size);
      } else if page < p {
        Monotone(page, p - 1, size);
      }
    }
  }

  lemma Monotone(a: nat, b: nat, size: nat)
    requires a <= b
    ensures a * size <= b * size
  {
  }

  /** Nothing is lost when the clamp does not bite. */
  lemma CompleteWithinClamp(n: nat, size: nat, clamp: nat)
    requires 1 <= size <= clamp
    ensures n <= Requests(n, size) * Min(size, clamp)
  {
    PagesSuffice(n, size);
  }

  /** From twice the clamp on, everything beyond the first page served is lost in any longer collection. */
  lemma LosesBeyondClamp(n: nat, size: nat, clamp: nat)
    requires clamp >= 1 && size >= 2 * clamp
    ensures n <= Requests(n, size) * Min(size, clamp) <==> n <= clamp
  {
    var p := Requests(n, size);
    PagesSuffice(n, size);
    if n <= clamp {
      StopsAt(n, size, 1);
    } else if p >= 2 {
      Scaled(p - 1, 2 * clamp, size);
      Monotone(1, p - 1, clamp);
      assert (p - 1) * (2 * clamp) == (p - 1) * clamp + (p - 1) * clamp;
      assert p * clamp == (p - 1) * clamp + clamp;
    }
  }

  /** Whatever the collection, everything is yielded: that is so exactly for sizes within the clamp. */
  lemma CompleteForEveryCollectionIff(size: nat, clamp: nat)
    requires size >= 1 && clamp >= 1
    ensures (forall n: nat :: n <= Requests(n, size) * Min(size, clamp)) <==> size <= clamp
  {
    if size <= clamp {
      forall n: nat ensures n <= Requests(n, size) * Min(size, clamp) {
        CompleteWithinClamp(n, size, clamp);
      }
    } else {
      StopsAt(clamp + 1, size, 1);
      assert !(clamp + 1 <= Requests(clamp + 1, size) * Min(size, clamp));
    }
  }

  /**
   * Beyond the clamp, the collections that are yielded whole are those whose length lies in one of the windows
   * `((p - 1) * size, p * clamp]`; they end where the windows become empty.
   */
  lemma CompleteBeyondClampIff(n: nat, size: nat, clamp: nat)
    requires size > clamp >= 1
    ensures n <= Requests(n, size) * Min(size, clamp) <==>
            n == 0 || exists p: nat :: p >= 1 && (p - 1) * size < n && n <= p * clamp
  {
    var p := Requests(n, size);
    PagesSuffice(n, size);
    if n > 0 {
      assert p >= 1 && (p - 1) * size < n;
      if q: nat :| q >= 1 && (q - 1) * size < n && n <= q * clamp {
        Scaled(q, clamp, size);
        StopsAt(n, size, q);
      }
    }
  }

  /** The windows are empty from some page on, so only finitely many lengths survive. */
  lemma WindowsEnd(p: nat, n: nat, size: nat, clamp: nat)
    requires size > clamp >= 1 && p >= 1 && (p - 1) * size < n && n <= p * clamp
    ensures (p - 1) * (size - clamp) < clamp
  {
    assert (p - 1) * (size - clamp) == (p - 1) * size - (p - 1) * clamp;
    assert p * clamp == (p - 1) * clamp + clamp;
  }

  lemma Scaled(k: nat, a: nat, b: nat)
    requires a <= b
    ensures k * a <= k * b
  {
  }

  // ---- the Go iterator ----

  /** The remote collection behind `fetchPage`; `failing` are the pages whose request fails. */
  datatype Source<T> = Source(items: seq<T>, size: nat, failing: set<nat>)

  /** The items of the first `pages` pages. */
  ghost function Before<T>(source: Source<T>, pages: nat): seq<T> {
    source.items[..Min(|source.items|, pages * source.size)]
  }

  /** Item `index` of page `page` is the last one handed out. */
  ghost predicate Reading<T>(source: Source<T>, page: nat, items: seq<T>, index: int, yielded: seq<T>) {
    && page >= 1 && items == Page(source.items, page, source.size) && 0 <= index < |items|
    && yielded == Before(source, page - 1) + items[..index + 1] && yielded <= source.items
  }

  ghost predicate Ended<T>(source: Source<T>, page: nat, yielded: seq<T>) {
    source.size >= 1 && yielded == source.items && page == Pages(|source.items|, source.size) + 1
  }

  /** The request for page `page` failed after all pages before it were handed out. */
  ghost predicate Broken<T>(source: Source<T>, page: nat, yielded: seq<T>) {
    && source.size >= 1 && 1 <= page <= Pages(|source.items|, source.size) + 1 && page in source.failing
    && yielded == Before(source, page - 1)
  }

  class Iterator<T> {
    const source: Source<T>
    var items: seq<T>
    var index: int
    var page: nat
    var total: nat
    var done: bool
    var err: bool
    ghost var yielded: seq<T>

    ghost predicate Valid()
      reads this
    {
      && source.size >= 1
      && (forall p :: 1 <= p <= page && p in source.failing ==> err && p == page)
      && (if done then !err && Ended(source, page, yielded)
          else if err then Broken(source, page, yielded)
          else if page == 0 then index == -1 && items == [] && yielded == []
          else Reading(source, page, items, index, yielded))
    }

    constructor (source: Source<T>)
      requires source.size >= 1
      ensures Valid() && !done && !err && page == 0 && yielded == [] && this.source == source
    {
      this.source := source;
      items, index, page, total, done, err := [], -1, 0, 0, false, false;
      yielded := [];
    }

    /** Once the end or an error was seen, nothing changes any more. */
    method Next() returns (more: bool)
      requires Valid()
      modifies this
      ensures Valid()
      ensures old(done || err) ==> !more && unchanged(this)
      ensures more ==> !done && !err && page > 0 && yielded == old(yielded) + [items[index]]
      ensures !more ==> (done || err) && yielded == old(yielded)
      ensures old(page) <= page
    {
      if done || err {
        return false;
      }
      if page > 0 {
        ReadOn(source, page, items, index, yielded);
      }
      index := index + 1;
      if index < |items| {
        yielded := yielded + [items[index]];
        return true;
      }
      more := Fetch();
    }

    /** The part of `Next` that asks for another page. */
    method Fetch() returns (more: bool)
      requires source.size >= 1 && !done && !err
      requires forall p :: 1 <= p <= page ==> p !in source.failing
      requires PageIsRead(source, page, items, yielded)
      modifies this
      ensures Valid() && page == old(page) + 1
      ensures more ==> !done && !err && yielded == old(yielded) + [items[index]]
      ensures !more ==> (done || err) && yielded == old(yielded)
    {
      PageRead(source, page, items, yielded);
      page := page + 1;
      if page in source.failing {
        err := true;
        return false;
      }
      items := Page(source.items, page, source.size);
      index := 0;
      total := |source.items|;
      if |items| == 0 {
        done := true;
        return false;
      }
      yielded := yielded + [items[0]];
      return true;
    }

    method Item() returns (item: T)
      requires Valid() && page > 0 && !done && !err
      ensures item == yielded[|yielded| - 1]
    {
      item := items[index];
    }
  }

  /** A page read to its end completes what came before it; the page after the last full one is empty. */
  lemma PageRead<T>(source: Source<T>, page: nat, items: seq<T>, yielded: seq<T>)
    requires source.size >= 1 && PageIsRead(source, page, items, yielded)
    ensures page + 1 in source.failing ==> Broken(source, page + 1, yielded)
    ensures var next := Page(source.items, page + 1, source.size);
            if next == [] then Ended(source, page + 1, yielded)
            else Reading(source, page + 1, next, 0, yielded + [next[0]])
  {
    PageBounds(page + 1, source.size);
    ReadSoFar(source, page, items, yielded);
    PagesReached(source, page);
  }

  lemma ReadSoFar<T>(source: Source<T>, page: nat, items: seq<T>, yielded: seq<T>)
    requires source.size >= 1 && PageIsRead(source, page, items, yielded)
    ensures yielded == Before(source, page) && (page > 0 ==> (page - 1) * source.size < |source.items|)
  {
    if page > 0 {
      PageBounds(page, source.size);
    }
  }

  lemma PagesReached<T>(source: Source<T>, page: nat)
    requires source.size >= 1 && (page > 0 ==> (page - 1) * source.size < |source.items|)
    ensures page <= Pages(|source.items|, source.size)
    ensures page * source.size >= |source.items| ==> page == Pages(|source.items|, source.size)
  {
    var n, s := |source.items|, source.size;
    var p := Pages(n, s);
    PagesSuffice(n, s);
    if p < page {
      Monotone(p, page - 1, s);
    } else if page < p {
      Monotone(page, p - 1, s);
    }
  }

  /** Everything received has been handed out. */
  ghost predicate PageIsRead<T>(source: Source<T>, page: nat, items: seq<T>, yielded: seq<T>) {
    if page == 0 then yielded == []
    else items != [] && items == Page(source.items, page, source.size) && yielded == Before(source, page - 1) + items
  }

  lemma ReadOn<T>(source: Source<T>, page: nat, items: seq<T>, index: int, yielded: seq<T>)
    requires Reading(source, page, items, index, yielded)
    ensures index + 1 == |items| ==> PageIsRead(source, page, items, yielded)
    ensures index + 1 < |items| ==> Reading(source, page, items, index + 1, yielded + [items[index + 1]])
  {
    PageBounds(page, source.size);
    assert items[..|items|] == items;
  }

  /** The consumer's loop. */
  method Drain<T>(source: Source<T>) returns (all: seq<T>, failed: bool, fetches: nat)
    requires source.size >= 1
    ensures fetches <= Pages(|source.items|, source.size) + 1
    ensures !failed ==> all == source.items && fetches == Pages(|source.items|, source.size) + 1
    ensures failed ==> fetches >= 1 && fetches in source.failing && all == Before(source, fetches - 1)
    ensures forall p :: 1 <= p < fetches ==> p !in source.failing
    ensures failed <==> exists p :: 1 <= p <= Pages(|source.items|, source.size) + 1 && p in source.failing
  {
    var it := new Iterator(source);
    all := [];
    var more := it.Next();
    while more
      invariant it.Valid() && it.source == source && fresh(it)
      invariant if more then !it.done && !it.err && it.page > 0 && it.yielded == all + [it.items[it.index]]
                else (it.done || it.err) && it.yielded == all
      decreases more, |source.items| - |all|
    {
      var item := it.Item();
      all := all + [item];
      more := it.Next();
    }
    failed, fetches := it.err, it.page;
  }
}

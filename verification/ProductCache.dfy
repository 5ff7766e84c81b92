/** The product cache: eviction, the size limit and the flag that all products are cached
    (opsiclientd/nonfree/CacheService.py). */
module ProductCaches {
  import opened Common

  /** The directory of a product; contentTime is the time of its content file, if it has one. */
  datatype Dir = Dir(name: string, size: nat, contentTime: Option<nat>)

  /** The cache directory in the order in which the file system lists it. */
  type Dirs = seq<Dir>

  predicate Distinct(dirs: Dirs) {
    forall i, j :: 0 <= i < j < |dirs| ==> dirs[i].name != dirs[j].name
  }

  function Total(dirs: Dirs): nat {
    if dirs == [] then 0 else dirs[0].size + Total(dirs[1..])
  }

  predicate Has(dirs: Dirs, name: string) {
    exists d :: d in dirs && d.name == name
  }

  function Without(dirs: Dirs, name: string): Dirs {
    if dirs == [] then [] else if dirs[0].name == name then dirs[1..] else [dirs[0]] + Without(dirs[1..], name)
  }

  lemma {:induction false} WithoutOne(dirs: Dirs, d: Dir)
    requires Distinct(dirs) && d in dirs
    ensures Distinct(Without(dirs, d.name)) && |Without(dirs, d.name)| == |dirs| - 1
    ensures forall e :: e in Without(dirs, d.name) <==> e in dirs && e != d
    ensures Total(Without(dirs, d.name)) == Total(dirs) - d.size
  {
    if dirs[0].name == d.name {
      assert d == dirs[0];
      assert forall e :: e in dirs <==> e == dirs[0] || e in dirs[1..];
    } else {
      WithoutOne(dirs[1..], d);
      assert forall e :: e in dirs <==> e == dirs[0] || e in dirs[1..];
      assert forall e :: e in dirs[1..] ==> e.name != dirs[0].name;
    }
  }

  // ----- which products are deleted first -----

  /** The products that may be deleted. */
  function Evictable(dirs: Dirs, needed: seq<string>): Dirs {
    if dirs == [] then []
    else if dirs[0].name in needed then Evictable(dirs[1..], needed)
    else [dirs[0]] + Evictable(dirs[1..], needed)
  }

  lemma {:induction false} EvictableMembers(dirs: Dirs, needed: seq<string>)
    ensures forall d :: d in Evictable(dirs, needed) <==> d in dirs && d.name !in needed
    ensures Distinct(dirs) ==> Distinct(Evictable(dirs, needed))
  {
    if dirs != [] {
      EvictableMembers(dirs[1..], needed);
      assert forall d :: d in dirs <==> d == dirs[0] || d in dirs[1..];
    }
  }

  lemma {:induction false} EvictableConcat(a: Dirs, b: Dirs, needed: seq<string>)
    ensures Evictable(a + b, needed) == Evictable(a, needed) + Evictable(b, needed)
  {
    if a == [] {
      assert a + b == b;
    } else {
      assert (a + b)[1..] == a[1..] + b;
      EvictableConcat(a[1..], b, needed);
    }
  }

  /** a goes before b: it has no content file and b has one, or both have one and that of a is older, or they
      are equal in that and a is listed first. */
  predicate GoesFirst(a: Dir, b: Dir, listedFirst: bool) {
    match (a.contentTime, b.contentTime)
    case (None, None) => listedFirst
    case (None, Some(_)) => true
    case (Some(_), None) => false
    case (Some(t), Some(u)) => t < u || (t == u && listedFirst)
  }

  /** The i-th directory goes before all others. */
  predicate IsChoice(dirs: Dirs, i: nat) {
    i < |dirs| && forall k :: 0 <= k < |dirs| && k != i ==> GoesFirst(dirs[i], dirs[k], i < k)
  }

  /** The place of that directory. */
  function Choice(dirs: Dirs): (i: nat)
    requires dirs != []
    ensures IsChoice(dirs, i) && i < |dirs|
  {
    if |dirs| == 1 then 0
    else
      var i := Choice(dirs[1..]);
      if GoesFirst(dirs[0], dirs[1..][i], true) then FirstGoesFirst(dirs, i); 0 else RestGoesFirst(dirs, i); i + 1
  }

  lemma FirstGoesFirst(dirs: Dirs, i: nat)
    requires |dirs| > 1 && IsChoice(dirs[1..], i) && GoesFirst(dirs[0], dirs[1..][i], true)
    ensures IsChoice(dirs, 0)
  {
    forall k | 1 <= k < |dirs|
      ensures GoesFirst(dirs[0], dirs[k], true)
    {
      assert dirs[k] == dirs[1..][k - 1];
      assert k - 1 != i ==> GoesFirst(dirs[1..][i], dirs[1..][k - 1], i < k - 1);
    }
  }

  lemma RestGoesFirst(dirs: Dirs, i: nat)
    requires |dirs| > 1 && IsChoice(dirs[1..], i) && !GoesFirst(dirs[0], dirs[1..][i], true)
    ensures IsChoice(dirs, i + 1)
  {
    forall k | 0 <= k < |dirs| && k != i + 1
      ensures GoesFirst(dirs[i + 1], dirs[k], i + 1 < k)
    {
      if k > 0 {
        assert dirs[k] == dirs[1..][k - 1];
        assert GoesFirst(dirs[1..][i], dirs[1..][k - 1], i < k - 1);
      }
    }
  }

  /** Only one directory goes before all others. */
  lemma ChoiceUnique(dirs: Dirs, i: nat)
    requires IsChoice(dirs, i)
    ensures i == Choice(dirs)
  {
    var j := Choice(dirs);
    assert i < j ==> GoesFirst(dirs[j], dirs[i], false);
    assert j < i ==> GoesFirst(dirs[i], dirs[j], false);
  }

  function Except(dirs: Dirs, i: nat): (r: Dirs)
    requires i < |dirs|
    ensures |r| == |dirs| - 1
  {
    dirs[..i] + dirs[i + 1..]
  }

  /** The directories in the order in which they are deleted. */
  function DeletionOrder(dirs: Dirs): Dirs
    decreases |dirs|
  {
    if dirs == [] then [] else [dirs[Choice(dirs)]] + DeletionOrder(Except(dirs, Choice(dirs)))
  }

  lemma SplitAt<T>(s: seq<T>, i: nat)
    requires i < |s|
    ensures s == s[..i] + [s[i]] + s[i + 1..]
  {
  }

  lemma ExceptTotal(dirs: Dirs, i: nat)
    requires i < |dirs|
    ensures multiset(dirs) == multiset(Except(dirs, i)) + multiset{dirs[i]}
    ensures Total(Except(dirs, i)) == Total(dirs) - dirs[i].size
  {
    hide Total;
    var a, d, b := dirs[..i], [dirs[i]], dirs[i + 1..];
    SplitAt(dirs, i);
    TotalConcat(a, b);
    TotalConcat(a + d, b);
    TotalConcat(a, d);
    TotalOfOne(dirs[i]);
  }

  lemma ExceptMembers(dirs: Dirs, i: nat)
    requires i < |dirs| && Distinct(dirs)
    ensures Distinct(Except(dirs, i))
    ensures forall d :: d in Except(dirs, i) <==> d in dirs && d != dirs[i]
  {
    var rest := Except(dirs, i);
    assert forall k :: 0 <= k < |rest| ==> rest[k] == dirs[if k < i then k else k + 1];
    forall d | d in dirs && d != dirs[i]
      ensures d in rest
    {
      var k :| 0 <= k < |dirs| && dirs[k] == d;
      assert rest[if k < i then k else k - 1] == d;
    }
    forall d | d in rest
      ensures d in dirs && d != dirs[i]
    {
      var k :| 0 <= k < |rest| && rest[k] == d;
      assert dirs[if k < i then k else k + 1] == d;
    }
  }

  /** Every directory is in the order once. */
  lemma {:induction false} DeletionOrderMembers(dirs: Dirs)
    ensures multiset(DeletionOrder(dirs)) == multiset(dirs) && Total(DeletionOrder(dirs)) == Total(dirs)
    decreases |dirs|
  {
    if dirs != [] {
      ExceptTotal(dirs, Choice(dirs));
      DeletionOrderMembers(Except(dirs, Choice(dirs)));
    }
  }

  lemma DeletionOrderAt(dirs: Dirs, k: nat)
    requires k < |DeletionOrder(dirs)|
    ensures DeletionOrder(dirs)[k] in dirs
  {
    DeletionOrderMembers(dirs);
    assert DeletionOrder(dirs)[k] in multiset(DeletionOrder(dirs));
  }

  /** a has no content file, or both have one and that of b is not older. */
  predicate NotAfter(a: Dir, b: Dir) {
    a.contentTime.None? || (b.contentTime.Some? && a.contentTime.value <= b.contentTime.value)
  }

  /** Directories without a content file come first, then the older ones before the newer ones. */
  lemma {:induction false} DeletionOrderSorted(dirs: Dirs, a: nat, b: nat)
    requires a < b < |DeletionOrder(dirs)|
    ensures NotAfter(DeletionOrder(dirs)[a], DeletionOrder(dirs)[b])
    decreases |dirs|
  {
    hide IsChoice, GoesFirst, NotAfter, Choice, Except;
    var rest := Except(dirs, Choice(dirs));
    if a > 0 {
      DeletionOrderSorted(rest, a - 1, b - 1);
    } else {
      DeletionOrderAt(rest, b - 1);
      ChoiceFirst(dirs, DeletionOrder(rest)[b - 1]);
    }
  }

  /** The choice has no content file or is as old as any other directory. */
  lemma ChoiceFirst(dirs: Dirs, d: Dir)
    requires dirs != [] && d in Except(dirs, Choice(dirs))
    ensures NotAfter(dirs[Choice(dirs)], d)
  {
    var i := Choice(dirs);
    var rest := Except(dirs, i);
    var k :| 0 <= k < |rest| && rest[k] == d;
    var m := if k < i then k else k + 1;
    assert dirs[m] == d && GoesFirst(dirs[i], dirs[m], i < m);
  }

  lemma TotalOfNone()
    ensures Total([]) == 0
  {
  }

  lemma TotalOfOne(d: Dir)
    ensures Total([d]) == d.size
  {
    assert [d][1..] == [];
  }

  lemma {:induction false} TotalConcat(a: Dirs, b: Dirs)
    ensures Total(a + b) == Total(a) + Total(b)
  {
    if a == [] {
      assert a + b == b;
    } else {
      assert (a + b)[1..] == a[1..] + b;
      TotalConcat(a[1..], b);
    }
  }

  // ----- the service -----

  /** What is recorded about a product of the current run. */
  datatype Progress = Started | Completed | Failed

  /** How caching one product goes: whether the depot answers, whether the content file is downloaded, the size
      of the directory and the time of the content file then, the size that the content file lists, what is left
      of the directories whose deletion fails, the space that is free on the disk then, and whether the
      synchronisation completes or at which size it stops. */
  datatype Download = Download(depotAnswers: bool, contentFetched: bool, sizeThen: nat, contentTime: nat,
                               productSize: nat,
                               remains: Remains, diskFree: nat, completes: bool, partialSize: nat)

  /** What a failed deletion leaves of a directory; the deletion of all others works. */
  type Remains = map<string, Dir>

  predicate ValidRemains(remains: Remains) {
    forall name :: name in remains ==> remains[name].name == name
  }

  /** Length of the shortest prefix that is as large as the needed space. */
  function Shortest(order: Dirs, neededSpace: int): (n: nat)
    ensures n <= |order|
  {
    if neededSpace <= 0 || order == [] then 0 else 1 + Shortest(order[1..], neededSpace - order[0].size)
  }

  lemma {:induction false} ShortestMeaning(order: Dirs, neededSpace: int)
    requires neededSpace <= Total(order)
    ensures var n := Shortest(order, neededSpace);
      neededSpace <= Total(order[..n]) && (n > 0 ==> Total(order[..n - 1]) < neededSpace)
  {
    if 0 < neededSpace && order != [] {
      var n := Shortest(order, neededSpace);
      ShortestMeaning(order[1..], neededSpace - order[0].size);
      assert order[..n][1..] == order[1..][..n - 1];
      if n > 1 {
        assert order[..n - 1][1..] == order[1..][..n - 2];
      }
    }
  }

  /** No deletion fails up to the point where enough space is free. */
  predicate DeletionsSucceed(dirs: Dirs, neededProducts: seq<string>, neededSpace: int, remains: Remains) {
    var order := DeletionOrder(Evictable(dirs, neededProducts));
    forall k :: 0 <= k < Shortest(order, neededSpace) ==> order[k].name !in remains
  }

  function SizeOf(dirs: Dirs, name: string): nat {
    if dirs == [] then 0 else if dirs[0].name == name then dirs[0].size else SizeOf(dirs[1..], name)
  }

  /** The listing after the directory of a product was made or changed. */
  function Put(dirs: Dirs, d: Dir): Dirs {
    if dirs == [] then [d] else if dirs[0].name == d.name then [d] + dirs[1..] else [dirs[0]] + Put(dirs[1..], d)
  }

  lemma {:induction false} PutOne(dirs: Dirs, d: Dir)
    requires Distinct(dirs)
    ensures Distinct(Put(dirs, d)) && SizeOf(Put(dirs, d), d.name) == d.size
    ensures forall e :: e in Put(dirs, d) <==> e == d || (e in dirs && e.name != d.name)
    ensures Total(Put(dirs, d)) == Total(dirs) - SizeOf(dirs, d.name) + d.size
  {
    if dirs == [] {
      TotalOfNone();
      TotalOfOne(d);
    } else {
      assert forall e :: e in dirs <==> e == dirs[0] || e in dirs[1..];
      if dirs[0].name == d.name {
        assert forall e :: e in dirs[1..] ==> e.name != d.name;
        assert Put(dirs, d)[1..] == dirs[1..];
      } else {
        PutOne(dirs[1..], d);
        assert Put(dirs, d)[1..] == Put(dirs[1..], d);
        assert forall e :: e in dirs[1..] ==> e.name != dirs[0].name;
      }
    }
  }

  /** The space that the limit asks to be freed before the product is synchronised. */
  function NeededSpace(maxSize: int, dirs: Dirs, productSize: nat): int {
    productSize - (maxSize - Total(dirs)) + 1000
  }

  predicate ExceedsLimit(maxSize: int, dirs: Dirs, productId: string, productSize: nat) {
    maxSize > 0 && Total(dirs) + productSize - SizeOf(dirs, productId) > maxSize
  }

  /** Enough can be deleted to make room for the product. */
  predicate CanMakeRoom(maxSize: int, dirs: Dirs, productSize: nat, neededProducts: seq<string>) {
    NeededSpace(maxSize, dirs, productSize) <= Total(Evictable(dirs, neededProducts))
  }

  /** The product fits below the limit, or enough can be deleted and no deletion fails. */
  predicate SpaceSuffices(maxSize: int, dirs: Dirs, productId: string, productSize: nat, neededProducts: seq<string>,
                          remains: Remains)
  {
    || !ExceedsLimit(maxSize, dirs, productId, productSize)
    || (CanMakeRoom(maxSize, dirs, productSize, neededProducts) &&
        DeletionsSucceed(dirs, neededProducts, NeededSpace(maxSize, dirs, productSize), remains))
  }

  /** The listing once the content file is downloaded. */
  function Downloaded(dirs: Dirs, productId: string, w: Download): Dirs {
    Put(dirs, Dir(productId, w.sizeThen, Some(w.contentTime)))
  }

  /** The size of all directories but that of the product. */
  function Others(dirs: Dirs, productId: string): nat {
    Total(Evictable(dirs, [productId]))
  }

  /** What has to be freed if the limit is exceeded: what the product and the whole cache, with the product's
      directory as it is after the download of the content file, take beyond the limit, and 1000 bytes more. */
  function ToFree(maxSize: int, dirs: Dirs, productId: string, w: Download): int {
    w.productSize + Others(dirs, productId) + w.sizeThen - maxSize + 1000
  }

  /** There is a limit, and the product at its listed size does not fit beside the others. */
  predicate TooLarge(maxSize: int, dirs: Dirs, productId: string, w: Download) {
    maxSize > 0 && Others(dirs, productId) + w.productSize > maxSize
  }

  /** The product does not fit below the limit, and what is not needed is too small, or a deletion fails before
      enough is free. */
  predicate LacksRoom(maxSize: int, dirs: Dirs, productId: string, neededProducts: seq<string>, w: Download) {
    var order := DeletionOrder(Evictable(dirs, neededProducts));
    && TooLarge(maxSize, dirs, productId, w)
    && (Total(order) < ToFree(maxSize, dirs, productId, w) ||
        exists k :: 0 <= k < |order| && order[k].name in w.remains &&
                    Total(order[..k]) < ToFree(maxSize, dirs, productId, w))
  }

  /** Caching the product works out: the depot answers, there is room below the limit and on the disk for the
      product and half a gigabyte more, and the synchronisation completes. */
  predicate WorksOut(maxSize: int, dirs: Dirs, productId: string, neededProducts: seq<string>, w: Download) {
    && w.depotAnswers && w.contentFetched
    && !LacksRoom(maxSize, dirs, productId, neededProducts, w)
    && w.productSize + 500_000_000 <= w.diskFree && w.completes
  }

  /** The products among the first n whose caching does not work out on the directories that it meets. */
  function FailedOnes(maxSize: int, productIds: seq<string>, downloads: seq<Download>, met: seq<Dirs>, n: nat):
    seq<string>
    requires n <= |productIds| == |downloads| && n <= |met|
  {
    if n == 0 then []
    else
      FailedOnes(maxSize, productIds, downloads, met, n - 1) +
      if WorksOut(maxSize, met[n - 1], productIds[n - 1], productIds, downloads[n - 1]) then [] else [productIds[n - 1]]
  }

  lemma {:induction false} FailedOnesSame(maxSize: int, productIds: seq<string>, downloads: seq<Download>,
                                          met: seq<Dirs>, more: seq<Dirs>, n: nat)
    requires n <= |productIds| == |downloads| && n <= |met|
    ensures FailedOnes(maxSize, productIds, downloads, met + more, n) ==
            FailedOnes(maxSize, productIds, downloads, met, n)
  {
    if n > 0 {
      FailedOnesSame(maxSize, productIds, downloads, met, more, n - 1);
    }
  }

  lemma {:induction false} ShortestAt(order: Dirs, neededSpace: int, k: nat)
    requires k < |order|
    ensures k < Shortest(order, neededSpace) <==> Total(order[..k]) < neededSpace
  {
    if k > 0 {
      assert order[..k][1..] == order[1..][..k - 1];
      if neededSpace > 0 {
        ShortestAt(order[1..], neededSpace - order[0].size, k - 1);
      }
    }
  }

  /** A needed product's own directory is not among those that may be deleted. */
  lemma {:induction false} EvictablePut(dirs: Dirs, d: Dir, needed: seq<string>)
    requires d.name in needed
    ensures Evictable(Put(dirs, d), needed) == Evictable(dirs, needed)
  {
    if dirs == [] {
      assert [d][1..] == [];
    } else if dirs[0].name != d.name {
      EvictablePut(dirs[1..], d, needed);
      assert Put(dirs, d)[1..] == Put(dirs[1..], d);
    } else {
      assert Put(dirs, d)[1..] == dirs[1..];
    }
  }

  lemma {:induction false} OthersOf(dirs: Dirs, productId: string)
    requires Distinct(dirs)
    ensures Others(dirs, productId) == Total(dirs) - SizeOf(dirs, productId)
  {
    if dirs != [] {
      assert forall e :: e in dirs[1..] ==> e.name != dirs[0].name;
      OthersOf(dirs[1..], productId);
      if dirs[0].name == productId {
        SizeOfMember(dirs[1..], productId);
      } else {
        assert ([dirs[0]] + Evictable(dirs[1..], [productId]))[1..] == Evictable(dirs[1..], [productId]);
      }
    }
  }

  /** The check of the limit after the download of the content file, in terms of the sizes before it. */
  lemma LacksRoomIff(maxSize: int, dirs: Dirs, productId: string, neededProducts: seq<string>, w: Download)
    requires Distinct(dirs) && productId in neededProducts
    ensures var after := Downloaded(dirs, productId, w);
      && NeededSpace(maxSize, after, w.productSize) == ToFree(maxSize, dirs, productId, w)
      && (ExceedsLimit(maxSize, after, productId, w.productSize) <==> TooLarge(maxSize, dirs, productId, w))
      && Evictable(after, neededProducts) == Evictable(dirs, neededProducts)
      && (SpaceSuffices(maxSize, after, productId, w.productSize, neededProducts, w.remains) <==>
            !LacksRoom(maxSize, dirs, productId, neededProducts, w))
  {
    hide Evictable, DeletionOrder, Put, Total, Shortest, Others;
    var d := Dir(productId, w.sizeThen, Some(w.contentTime));
    PutOne(dirs, d);
    OthersOf(dirs, productId);
    EvictablePut(dirs, d, neededProducts);
    DeletionOrderMembers(Evictable(dirs, neededProducts));
    var order, n := DeletionOrder(Evictable(dirs, neededProducts)), ToFree(maxSize, dirs, productId, w);
    forall k | 0 <= k < |order|
      ensures k < Shortest(order, n) <==> Total(order[..k]) < n
    {
      ShortestAt(order, n, k);
    }
  }

  /** The product's directory is there with its content file and the listed size. */
  predicate Cached(dirs: Dirs, productId: string, productSize: nat) {
    exists d :: d in dirs && d.name == productId && d.size == productSize && d.contentTime.Some?
  }

  /** The directories of all other needed products stay as they are. */
  predicate OthersKept(before: Dirs, after: Dirs, productId: string, neededProducts: seq<string>) {
    forall d :: d in before && d.name in neededProducts && d.name != productId ==> d in after
  }

  class ProductCacheService {
    var maxSize: int
    var dirs: Dirs
    var products: map<string, Progress>
    var productsCached: bool
    var working: bool

    constructor (maxSize: int, dirs: Dirs)
      requires Distinct(dirs)
      ensures this.maxSize == maxSize && this.dirs == dirs && !productsCached && !working && products == map[]
    {
      this.maxSize, this.dirs := maxSize, dirs;
      products, productsCached, working := map[], false, false;
    }

    /** The scan for the directory to delete next. */
    method FindDeleteProduct(candidates: Dirs) returns (i: nat)
      requires candidates != []
      ensures i == Choice(candidates) && i < |candidates|
    {
      i := 0;
      var eldestTime: Option<nat> := None;
      for k := 0 to |candidates|
        invariant eldestTime.None? ==> k == 0
        invariant eldestTime.Some? ==> i < k && candidates[i].contentTime == eldestTime
        invariant eldestTime.Some? ==> forall j :: 0 <= j < k && j != i ==>
                    GoesFirst(candidates[i], candidates[j], i < j)
      {
        if candidates[k].contentTime.None? {
          // Package content file not found
          assert forall j :: 0 <= j < k ==> candidates[j].contentTime.Some?;
          i := k;
          break;
        }
        var mtime := candidates[k].contentTime.value;
        if eldestTime.None? {
          eldestTime := Some(mtime);
          i := k;
        } else if mtime < eldestTime.value {
          eldestTime := Some(mtime);
          i := k;
        }
      }
      assert IsChoice(candidates, i);
      ChoiceUnique(candidates, i);
    }

    /** The sizes of the products that may be deleted, and their sum. */
    method CollectEvictable(neededProducts: seq<string>) returns (candidates: Dirs, maxFreeableSize: nat)
      ensures candidates == Evictable(dirs, neededProducts) && maxFreeableSize == Total(candidates)
    {
      candidates, maxFreeableSize := [], 0;
      for k := 0 to |dirs|
        invariant candidates == Evictable(dirs[..k], neededProducts) && maxFreeableSize == Total(candidates)
      {
        assert dirs[..k + 1] == dirs[..k] + [dirs[k]];
        EvictableConcat(dirs[..k], [dirs[k]], neededProducts);
        if dirs[k].name !in neededProducts {
          TotalConcat(candidates, [dirs[k]]);
          candidates := candidates + [dirs[k]];
          maxFreeableSize := maxFreeableSize + dirs[k].size;
        }
      }
      assert dirs[..|dirs|] == dirs;
    }

    /** Removes the directory of a product and its record, or what can be removed of the directory. */
    method DeleteProduct(d: Dir, remains: Remains) returns (ok: bool)
      requires Distinct(dirs) && d in dirs && ValidRemains(remains)
      modifies this`dirs, this`products
      ensures ok <==> d.name !in remains
      ensures Distinct(dirs)
      ensures ok ==> Total(dirs) == Total(old(dirs)) - d.size && products == old(products) - {d.name}
      ensures ok ==> forall e :: e in dirs <==> e in old(dirs) && e != d
      ensures !ok ==> products == old(products)
      ensures !ok ==> forall e :: e in dirs <==> e == remains[d.name] || (e in old(dirs) && e.name != d.name)
    {
      if d.name in remains {
        PutOne(dirs, remains[d.name]);
        dirs := Put(dirs, remains[d.name]);
        return false;
      }
      WithoutOne(dirs, d);
      dirs := Without(dirs, d.name);
      if d.name in products {
        products := products - {d.name};
      }
      ok := true;
    }

    /** Deletes products that are not needed until enough space is free: the shortest prefix of the deletion
        order that suffices. Nothing is deleted if all of them together are too small. If a deletion fails, what
        is gone is a prefix of the deletion order, and the next directory may be damaged. */
    method FreeProductCacheSpace(neededSpace: int, neededProducts: seq<string>, remains: Remains)
      returns (ok: bool, ghost deleted: Dirs)
      requires Distinct(dirs) && ValidRemains(remains)
      modifies this`dirs, this`products
      ensures ok <==> neededSpace <= Total(Evictable(old(dirs), neededProducts)) &&
                      DeletionsSucceed(old(dirs), neededProducts, neededSpace, remains)
      ensures neededSpace > Total(Evictable(old(dirs), neededProducts)) ==> dirs == old(dirs) && deleted == []
      ensures ok ==> Freed(old(dirs), dirs, neededProducts, deleted) && neededSpace <= Total(deleted)
      ensures deleted != [] ==> Total(deleted[..|deleted| - 1]) < neededSpace
      ensures !ok && neededSpace <= Total(Evictable(old(dirs), neededProducts)) ==>
                Stopped(old(dirs), dirs, neededProducts, deleted, remains)
      ensures products == old(products) - NamesOf(deleted)
      ensures Distinct(dirs)
    {
      hide DeletionOrder, Total, Evictable, Distinct, Choice, Except, OnlyDeleted, NamesOf, Shortest, Put, Without,
        DeletionsSucceed, Stopped;
      var candidates, maxFreeableSize := CollectEvictable(neededProducts);
      deleted := [];
      NothingDeleted(dirs);
      if maxFreeableSize < neededSpace {
        return false, [];
      }
      EvictableMembers(dirs, neededProducts);
      ghost var order := DeletionOrder(candidates);
      var freedSpace := 0;
      TotalOfNone();
      ShortestRest(order, [], order, neededSpace, 0);
      while freedSpace < neededSpace
        invariant Distinct(dirs) && Distinct(candidates)
        invariant order == deleted + DeletionOrder(candidates)
        invariant freedSpace == Total(deleted) && freedSpace + Total(candidates) == maxFreeableSize
        invariant Total(dirs) == Total(old(dirs)) - freedSpace
        invariant OnlyDeleted(old(dirs), dirs, deleted)
        invariant forall d :: d in candidates ==> d in dirs
        invariant forall k :: 0 <= k < |deleted| ==> deleted[k].name !in remains
        invariant Shortest(order, neededSpace) ==
                    |deleted| + Shortest(DeletionOrder(candidates), neededSpace - freedSpace)
        invariant products == old(products) - NamesOf(deleted)
        invariant deleted != [] ==> Total(deleted[..|deleted| - 1]) < neededSpace
        decreases |candidates|
      {
        ghost var before, present := deleted, dirs;
        var i := FindDeleteProduct(candidates);
        var d := candidates[i];
        OrderStep(order, deleted, candidates);
        ShortestStep(candidates, neededSpace - freedSpace);
        ok := DeleteProduct(d, remains);
        if !ok {
          StoppedHere(old(dirs), present, dirs, neededProducts, neededSpace, deleted, remains, d);
          return;
        }
        freedSpace := freedSpace + d.size;
        ExceptTotal(candidates, i);
        ExceptMembers(candidates, i);
        TotalConcat(deleted, [d]);
        TotalOfOne(d);
        DeletedStep(deleted, d);
        OnlyDeletedStep(old(dirs), present, dirs, deleted, d);
        candidates := Except(candidates, i);
        deleted := deleted + [d];
        assert deleted[..|deleted| - 1] == before;
      }
      ShortestNothing(DeletionOrder(candidates), neededSpace - freedSpace);
      NoneFailed(old(dirs), neededProducts, neededSpace, deleted, DeletionOrder(candidates), remains);
      return true, deleted;
    }

    /** Makes room below the limit for a product whose content file was just downloaded. */
    method MakeRoom(productId: string, productSize: nat, neededProducts: seq<string>, remains: Remains)
      returns (ok: bool, ghost deleted: Dirs)
      requires Distinct(dirs) && productId in neededProducts && ValidRemains(remains)
      modifies this`dirs, this`products
      ensures ok <==> SpaceSuffices(maxSize, old(dirs), productId, productSize, neededProducts, remains)
      ensures Distinct(dirs) && Kept(old(dirs), dirs, old(products), products, neededProducts)
      ensures forall d :: d in dirs ==> d in old(dirs) || IsRemainder(d, remains)
      ensures ok ==> Freed(old(dirs), dirs, neededProducts, deleted)
      ensures !ExceedsLimit(maxSize, old(dirs), productId, productSize) ||
                !CanMakeRoom(maxSize, old(dirs), productSize, neededProducts) ==>
                dirs == old(dirs) && deleted == []
      ensures deleted != [] ==> ExceedsLimit(maxSize, old(dirs), productId, productSize) &&
                                Total(deleted[..|deleted| - 1]) < NeededSpace(maxSize, old(dirs), productSize)
      ensures deleted <= DeletionOrder(Evictable(old(dirs), neededProducts))
      ensures forall d :: d in old(dirs) && d.name !in remains ==> (d in dirs <==> d !in deleted)
      ensures ok && maxSize > 0 ==> Total(dirs) + productSize - SizeOf(dirs, productId) <= maxSize
    {
      hide DeletionOrder, Evictable, Distinct, NamesOf, DeletionsSucceed;
      ok, deleted := true, [];
      TotalOfNone();
      NothingDeleted(dirs);
      if maxSize > 0 {
        var productCacheDirSize := Total(dirs);
        var curProductSize := SizeOf(dirs, productId);
        if productCacheDirSize + productSize - curProductSize > maxSize {
          // Product cache dir size limit exceeded
          var freeSpace := maxSize - productCacheDirSize;
          ok, deleted := FreeProductCacheSpace(productSize - freeSpace + 1000, neededProducts, remains);
          if ok {
            NeededKept(old(dirs), dirs, neededProducts, deleted);
          } else if CanMakeRoom(maxSize, old(dirs), productSize, neededProducts) {
            NeededKeptStopped(old(dirs), dirs, neededProducts, deleted, remains);
          }
          NotDeleted(old(dirs), neededProducts, deleted);
        }
      }
    }

    /** Caches one product; ok is false where an error is raised. */
    method CacheProduct(productId: string, neededProducts: seq<string>, w: Download)
      returns (ok: bool, ghost deleted: Dirs)
      requires Distinct(dirs) && productId in neededProducts && ValidRemains(w.remains)
      modifies this`dirs, this`products
      ensures Distinct(dirs)
      ensures ok <==> WorksOut(maxSize, old(dirs), productId, neededProducts, w)
      ensures ok && maxSize > 0 ==> Total(dirs) <= maxSize
      ensures ok ==> Cached(dirs, productId, w.productSize) && productId in products && products[productId] == Completed
      ensures OthersKept(old(dirs), dirs, productId, neededProducts)
      ensures forall d :: d in dirs && d.name != productId ==> d in old(dirs) || IsRemainder(d, w.remains)
      ensures deleted <= DeletionOrder(Evictable(old(dirs), neededProducts))
      ensures deleted != [] ==> w.depotAnswers && w.contentFetched && TooLarge(maxSize, old(dirs), productId, w) &&
                                Total(deleted[..|deleted| - 1]) < ToFree(maxSize, old(dirs), productId, w)
      ensures forall d :: d in old(dirs) && d.name != productId && d.name !in w.remains ==>
                (d in dirs <==> d !in deleted)
      ensures forall d :: d in old(dirs) && d.name != productId && d !in dirs && ok ==> d in deleted
      ensures forall p :: p in old(products) && p in neededProducts && p != productId ==>
                p in products && products[p] == old(products)[p]
    {
      hide Evictable, DeletionOrder, LacksRoom, SpaceSuffices, Others, Total, Put;
      deleted := [];
      products := products[productId := Started];
      if !w.depotAnswers {
        return false, deleted;
      }
      if !w.contentFetched {
        if SizeOf(dirs, productId) == 0 && !Has(dirs, productId) {
          PutOne(dirs, Dir(productId, 0, None));
          dirs := Put(dirs, Dir(productId, 0, None));
        }
        return false, deleted;
      }
      PutOne(dirs, Dir(productId, w.sizeThen, Some(w.contentTime)));
      dirs := Put(dirs, Dir(productId, w.sizeThen, Some(w.contentTime)));
      LacksRoomIff(maxSize, old(dirs), productId, neededProducts, w);
      ok, deleted := MakeRoom(productId, w.productSize, neededProducts, w.remains);
      if !ok || w.diskFree < w.productSize + 500 * 1000 * 1000 {
        return false, deleted;
      }
      var synced := Dir(productId, if w.completes then w.productSize else w.partialSize, Some(w.contentTime));
      PutOne(dirs, synced);
      dirs := Put(dirs, synced);
      if !w.completes {
        return false, deleted;
      }
      assert synced in dirs;
      products := products[productId := Completed];
    }

    /** Caches all products one after the other, met holding the directories that each of them meets. Those
        whose caching does not work out are listed. The flag is set exactly if there was something to cache and
        nothing failed; then all of them are cached at the same time. */
    method CacheProducts(requested: seq<string>, processor: string, downloads: seq<Download>)
        returns (errorsOccured: seq<string>, ghost met: seq<Dirs>)
      requires Distinct(dirs) && |downloads| == |requested| + 1
      requires forall k :: 0 <= k < |downloads| ==> ValidRemains(downloads[k].remains)
      modifies this`dirs, this`products, this`productsCached, this`working
      ensures Distinct(dirs) && !working
      ensures productsCached <==> requested != [] && errorsOccured == []
      ensures requested == [] ==> errorsOccured == [] && dirs == old(dirs)
      ensures requested != [] ==> |met| == |requested| + 2 && met[0] == old(dirs) && met[|requested| + 1] == dirs
      ensures requested != [] ==>
                errorsOccured == FailedOnes(maxSize, requested + [processor], downloads, met, |requested| + 1)
      ensures productsCached ==> AllCached(dirs, products, requested + [processor], downloads)
      ensures productsCached && maxSize > 0 ==> Total(dirs) <= maxSize
      ensures FailuresRecorded(products, requested + [processor], errorsOccured)
    {
      hide WorksOut, AllCached, Evictable, DeletionOrder, Cached, FailedOnes, FailuresRecorded, LacksRoom, OthersKept;
      working := true;
      productsCached := false;
      products := map[];
      errorsOccured := [];
      met := [dirs];
      NoneCached(dirs, products);
      NoneFailedYet(maxSize, requested + [processor], downloads, met, products);
      if requested != [] {
        var productIds := requested + [processor];
        for k := 0 to |productIds|
          invariant Distinct(dirs)
          invariant |met| == k + 1 && met[0] == old(dirs) && met[k] == dirs
          invariant errorsOccured == FailedOnes(maxSize, productIds, downloads, met, k)
          invariant FailuresRecorded(products, productIds, errorsOccured)
          invariant forall p :: p in errorsOccured ==> p in productIds[..k]
          invariant errorsOccured == [] ==> AllCached(dirs, products, productIds[..k], downloads[..k])
          invariant errorsOccured == [] && k > 0 && maxSize > 0 ==> Total(dirs) <= maxSize
        {
          ghost var dirsBefore, productsBefore := dirs, products;
          ghost var deleted;
          var ok;
          ok, deleted := CacheProduct(productIds[k], productIds, downloads[k]);
          FailedOnesStep(maxSize, productIds, downloads, met, dirs, k);
          FailuresKept(productsBefore, products, productIds, errorsOccured, k, ok);
          met := met + [dirs];
          if ok {
            if errorsOccured == [] {
              AllCachedStep(dirsBefore, productsBefore, dirs, products, productIds, downloads, k);
            }
          } else {
            errorsOccured := errorsOccured + [productIds[k]];
            products := products[productIds[k] := Failed];
          }
        }
        assert productIds[..|productIds|] == productIds && downloads[..|productIds|] == downloads;
        productsCached := errorsOccured == [];
      }
      working := false;
    }
  }

  /** Failures are products of the list; one that stands in it once is recorded as failed. */
  ghost predicate FailuresRecorded(products: map<string, Progress>, productIds: seq<string>, failures: seq<string>) {
    forall p :: p in failures ==> p in productIds && (Once(productIds, p) ==> p in products && products[p] == Failed)
  }

  lemma NoneFailedYet(maxSize: int, productIds: seq<string>, downloads: seq<Download>, met: seq<Dirs>,
                      products: map<string, Progress>)
    requires |productIds| == |downloads|
    ensures FailedOnes(maxSize, productIds, downloads, met, 0) == [] && FailuresRecorded(products, productIds, [])
  {
  }

  lemma FailedOnesStep(maxSize: int, productIds: seq<string>, downloads: seq<Download>, met: seq<Dirs>, next: Dirs,
                       k: nat)
    requires k < |productIds| == |downloads| && |met| == k + 1
    ensures FailedOnes(maxSize, productIds, downloads, met + [next], k + 1) ==
            FailedOnes(maxSize, productIds, downloads, met, k) +
            if WorksOut(maxSize, met[k], productIds[k], productIds, downloads[k]) then [] else [productIds[k]]
  {
    hide WorksOut;
    FailedOnesSame(maxSize, productIds, downloads, met, [next], k);
  }

  lemma FailuresKept(before: map<string, Progress>, after: map<string, Progress>, productIds: seq<string>,
                     failures: seq<string>, k: nat, ok: bool)
    requires k < |productIds| && FailuresRecorded(before, productIds, failures)
    requires forall p :: p in failures ==> p in productIds[..k]
    requires forall p :: p in before && p in productIds && p != productIds[k] ==> p in after && after[p] == before[p]
    ensures ok ==> FailuresRecorded(after, productIds, failures)
    ensures FailuresRecorded(after[productIds[k] := Failed], productIds, failures + [productIds[k]])
  {
    forall p | p in failures && Once(productIds, p)
      ensures p != productIds[k]
    {
      var i :| 0 <= i < |productIds[..k]| && productIds[..k][i] == p;
      assert productIds[i] == p;
    }
  }

  predicate Once(productIds: seq<string>, p: string) {
    forall i, j :: 0 <= i < |productIds| && 0 <= j < |productIds| && productIds[i] == p && productIds[j] == p ==> i == j
  }

  predicate IsRemainder(d: Dir, remains: Remains) {
    d.name in remains && remains[d.name] == d
  }

  /** Products that are needed keep their directories and their records. */
  predicate Kept(before: Dirs, after: Dirs, products: map<string, Progress>, products': map<string, Progress>,
                 neededProducts: seq<string>) {
    && (forall d :: d in before && d.name in neededProducts ==> d in after)
    && (forall p :: p in products && p in neededProducts ==> p in products' && products'[p] == products[p])
  }

  /** What is deleted was there and is not needed. */
  lemma DeletedNotNeeded(before: Dirs, neededProducts: seq<string>, k: nat)
    requires k < |DeletionOrder(Evictable(before, neededProducts))|
    ensures var d := DeletionOrder(Evictable(before, neededProducts))[k]; d in before && d.name !in neededProducts
  {
    EvictableMembers(before, neededProducts);
    DeletionOrderAt(Evictable(before, neededProducts), k);
  }

  lemma NotDeleted(before: Dirs, neededProducts: seq<string>, deleted: Dirs)
    requires deleted <= DeletionOrder(Evictable(before, neededProducts))
    ensures forall d :: d in deleted ==> d in before && d.name !in neededProducts
    ensures forall p :: p in neededProducts ==> p !in NamesOf(deleted)
  {
    hide DeletionOrder;
    forall d | d in deleted
      ensures d in before && d.name !in neededProducts
    {
      var k :| 0 <= k < |deleted| && deleted[k] == d;
      DeletedNotNeeded(before, neededProducts, k);
    }
  }

  lemma NeededKept(before: Dirs, after: Dirs, neededProducts: seq<string>, deleted: Dirs)
    requires Distinct(before) && Distinct(after) && Freed(before, after, neededProducts, deleted)
    ensures forall d :: d in before && d.name in neededProducts ==> d in after
    ensures forall name :: name in neededProducts ==> SizeOf(after, name) == SizeOf(before, name)
  {
    NotDeleted(before, neededProducts, deleted);
    forall name | name in neededProducts
      ensures SizeOf(after, name) == SizeOf(before, name)
    {
      SizeOfMember(before, name);
      SizeOfMember(after, name);
    }
  }

  lemma NeededKeptStopped(before: Dirs, after: Dirs, neededProducts: seq<string>, deleted: Dirs, remains: Remains)
    requires ValidRemains(remains) && Stopped(before, after, neededProducts, deleted, remains)
    ensures forall d :: d in before && d.name in neededProducts ==> d in after
    ensures forall d :: d in after ==> d in before || IsRemainder(d, remains)
    ensures forall d :: d in before && d.name !in remains ==> (d in after <==> d !in deleted)
  {
    hide DeletionOrder, Evictable;
    NotDeleted(before, neededProducts, deleted);
    DeletedNotNeeded(before, neededProducts, |deleted|);
  }

  lemma {:induction false} SizeOfMember(dirs: Dirs, name: string)
    requires Distinct(dirs)
    ensures forall d :: d in dirs && d.name == name ==> SizeOf(dirs, name) == d.size
    ensures Has(dirs, name) || SizeOf(dirs, name) == 0
  {
    if dirs != [] {
      SizeOfMember(dirs[1..], name);
      assert forall e :: e in dirs <==> e == dirs[0] || e in dirs[1..];
      assert forall e :: e in dirs[1..] ==> e.name != dirs[0].name;
      if dirs[0].name == name {
        assert dirs[0] in dirs;
      }
    }
  }

  /** Every product is recorded as completed, and its directory has the size of one of its downloads. */
  ghost predicate AllCached(dirs: Dirs, products: map<string, Progress>, productIds: seq<string>,
                            downloads: seq<Download>)
    requires |productIds| == |downloads|
  {
    forall k :: 0 <= k < |productIds| ==>
      productIds[k] in products && products[productIds[k]] == Completed &&
        CachedAs(dirs, productIds, downloads, productIds[k])
  }

  ghost predicate CachedAs(dirs: Dirs, productIds: seq<string>, downloads: seq<Download>, productId: string)
    requires |productIds| == |downloads|
  {
    exists j :: 0 <= j < |productIds| && productIds[j] == productId && Cached(dirs, productId, downloads[j].productSize)
  }

  lemma NoneCached(dirs: Dirs, products: map<string, Progress>)
    ensures AllCached(dirs, products, [], [])
  {
  }

  lemma AllCachedStep(dirs: Dirs, products: map<string, Progress>, dirs': Dirs, products': map<string, Progress>,
                      productIds: seq<string>, downloads: seq<Download>, k: nat)
    requires k < |productIds| == |downloads|
    requires AllCached(dirs, products, productIds[..k], downloads[..k])
    requires OthersKept(dirs, dirs', productIds[k], productIds)
    requires forall p :: p in products && p in productIds && p != productIds[k] ==>
               p in products' && products'[p] == products[p]
    requires Cached(dirs', productIds[k], downloads[k].productSize)
    requires productIds[k] in products' && products'[productIds[k]] == Completed
    ensures AllCached(dirs', products', productIds[..k + 1], downloads[..k + 1])
  {
    var ids, ds := productIds[..k + 1], downloads[..k + 1];
    forall i | 0 <= i < |ids|
      ensures ids[i] in products' && products'[ids[i]] == Completed && CachedAs(dirs', ids, ds, ids[i])
    {
      if ids[i] == productIds[k] {
        assert ids[k] == ids[i] && Cached(dirs', ids[i], ds[k].productSize);
      } else {
        assert productIds[..k][i] == ids[i];
        var j :| 0 <= j < k && productIds[..k][j] == ids[i] && Cached(dirs, ids[i], downloads[..k][j].productSize);
        assert ids[j] == ids[i] && Cached(dirs', ids[i], ds[j].productSize);
      }
    }
  }

  lemma NothingDeleted(dirs: Dirs)
    ensures OnlyDeleted(dirs, dirs, []) && NamesOf([]) == {}
  {
  }

  lemma DeletedStep(deleted: Dirs, d: Dir)
    ensures NamesOf(deleted + [d]) == NamesOf(deleted) + {d.name}
    ensures forall e :: e in deleted + [d] <==> e in deleted || e == d
  {
    assert forall e :: e in deleted + [d] <==> e in deleted || e == d;
  }

  lemma OrderStep(order: Dirs, deleted: Dirs, candidates: Dirs)
    requires candidates != [] && order == deleted + DeletionOrder(candidates)
    ensures order == deleted + [candidates[Choice(candidates)]] + DeletionOrder(Except(candidates, Choice(candidates)))
  {
  }

  ghost function NamesOf(dirs: Dirs): set<string> {
    set d | d in dirs :: d.name
  }

  predicate OnlyDeleted(before: Dirs, after: Dirs, deleted: Dirs) {
    && (forall d :: d in after ==> d in before && d !in deleted)
    && (forall d :: d in before && d !in deleted ==> d in after)
  }

  lemma OnlyDeletedStep(before: Dirs, present: Dirs, after: Dirs, deleted: Dirs, d: Dir)
    requires OnlyDeleted(before, present, deleted)
    requires forall e :: e in after <==> e in present && e != d
    ensures OnlyDeleted(before, after, deleted + [d])
  {
    assert forall e :: e in deleted + [d] <==> e in deleted || e == d;
  }

  /** Exactly the deleted directories are gone; they are the first of the deletion order of what is not needed. */
  ghost predicate Freed(before: Dirs, after: Dirs, neededProducts: seq<string>, deleted: Dirs) {
    && deleted <= DeletionOrder(Evictable(before, neededProducts))
    && OnlyDeleted(before, after, deleted)
    && Total(after) == Total(before) - Total(deleted)
  }

  /** The deletion of the next directory in the order failed: those before it are gone, and something of it is
      left. */
  ghost predicate Stopped(before: Dirs, after: Dirs, neededProducts: seq<string>, deleted: Dirs, remains: Remains) {
    var order := DeletionOrder(Evictable(before, neededProducts));
    && |deleted| < |order| && deleted <= order && order[|deleted|].name in remains
    && forall d :: d in after <==>
         d == remains[order[|deleted|].name] || (d in before && d !in deleted && d.name != order[|deleted|].name)
  }

  lemma NoneFailed(before: Dirs, neededProducts: seq<string>, neededSpace: int, deleted: Dirs, rest: Dirs,
                   remains: Remains)
    requires DeletionOrder(Evictable(before, neededProducts)) == deleted + rest
    requires Shortest(deleted + rest, neededSpace) == |deleted|
    requires forall k :: 0 <= k < |deleted| ==> deleted[k].name !in remains
    ensures DeletionsSucceed(before, neededProducts, neededSpace, remains)
  {
    hide DeletionOrder, Evictable, Shortest;
  }

  lemma StoppedHere(before: Dirs, present: Dirs, after: Dirs, neededProducts: seq<string>, neededSpace: int,
                    deleted: Dirs, remains: Remains, d: Dir)
    requires |deleted| < Shortest(DeletionOrder(Evictable(before, neededProducts)), neededSpace)
    requires deleted + [d] <= DeletionOrder(Evictable(before, neededProducts)) && d.name in remains
    requires OnlyDeleted(before, present, deleted)
    requires forall e :: e in after <==> e == remains[d.name] || (e in present && e.name != d.name)
    ensures Stopped(before, after, neededProducts, deleted, remains)
    ensures !DeletionsSucceed(before, neededProducts, neededSpace, remains)
  {
    hide DeletionOrder, Evictable, Shortest;
    assert (deleted + [d])[|deleted|] == d;
    assert deleted <= deleted + [d];
  }

  lemma ShortestRest(order: Dirs, deleted: Dirs, rest: Dirs, neededSpace: int, freedSpace: int)
    requires deleted == [] && rest == order && freedSpace == 0
    ensures Shortest(order, neededSpace) == |deleted| + Shortest(rest, neededSpace - freedSpace)
  {
  }

  lemma ShortestStep(candidates: Dirs, neededSpace: int)
    requires candidates != [] && neededSpace > 0
    ensures Shortest(DeletionOrder(candidates), neededSpace) ==
      1 + Shortest(DeletionOrder(Except(candidates, Choice(candidates))),
        neededSpace - candidates[Choice(candidates)].size)
  {
    hide Choice, Except;
  }

  lemma ShortestNothing(order: Dirs, neededSpace: int)
    requires neededSpace <= 0
    ensures Shortest(order, neededSpace) == 0
  {
  }
}

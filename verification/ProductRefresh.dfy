/**
 * Price Compare's products file under a bulk refresh that runs for minutes while users rename, add and
 * delete products and save snapshots taken before they started (apps/price-compare/app/server.js).
 */
module ProductRefresh {
  import opened Common

  datatype Product = Product(
    id: string, userId: string, name: string, brand: string, category: string,
    overrides: map<string, string>, createdAt: int, urls: seq<string>, updatedAt: int)

  /** What an edit request asks to change; `research` when its route searches the stores in any case. */
  datatype Edit = Edit(
    name: Option<string>, brand: Option<string>, category: Option<string>,
    overrides: Option<map<string, string>>, research: bool)

  /** A request waiting for a store search: whose list, the snapshot it edited, and which product in it. */
  datatype Request = Request(user: string, snapshot: seq<Product>, index: nat)

  /** The products file and the requests in flight. */
  datatype Store = Store(products: seq<Product>, pending: map<int, Request>)

  function LoadUserProducts(products: seq<Product>, user: string): seq<Product> {
    if products == [] then []
    else (if products[0].userId == user then [products[0]] else []) + LoadUserProducts(products[1..], user)
  }

  function OthersProducts(products: seq<Product>, user: string): seq<Product> {
    if products == [] then []
    else (if products[0].userId != user then [products[0]] else []) + OthersProducts(products[1..], user)
  }

  function SaveUserProducts(products: seq<Product>, user: string, mine: seq<Product>): seq<Product> {
    OthersProducts(products, user) + mine
  }

  /** The first product with this id that belongs to the user; `|products|` when there is none. */
  function IndexOf(products: seq<Product>, user: string, id: string): (i: nat)
    ensures i <= |products|
    ensures i < |products| ==> products[i].id == id && products[i].userId == user
  {
    if products == [] || (products[0].id == id && products[0].userId == user) then 0
    else 1 + IndexOf(products[1..], user, id)
  }

  function Found(p: Product, urls: seq<string>, at: int): Product {
    p.(urls := urls, updatedAt := at)
  }

  /** The refresh's write: only the search result of one product, against the file as it is now. */
  function UpdateOne(products: seq<Product>, user: string, id: string, urls: seq<string>, at: int): seq<Product> {
    var i := IndexOf(products, user, id);
    if i == |products| then products else products[i := Found(products[i], urls, at)]
  }

  function Without(products: seq<Product>, id: string): seq<Product> {
    if products == [] then []
    else (if products[0].id != id then [products[0]] else []) + Without(products[1..], id)
  }

  function Edited(p: Product, e: Edit): Product {
    p.(name := GetOr(e.name, p.name), brand := GetOr(e.brand, p.brand),
       category := GetOr(e.category, p.category), overrides := GetOr(e.overrides, p.overrides))
  }

  predicate QueryChanged(p: Product, e: Edit) {
    Edited(p, e).name != p.name || Edited(p, e).brand != p.brand
  }

  /**
   * One atomic step of the server, from one wait to the next: a bulk-refresh write, a new product once
   * its search is done, an edit up to its search, the save behind that search, or a delete.
   */
  datatype Event =
    | Refresh(user: string, id: string, urls: seq<string>, at: int)
    | Post(product: Product)
    | EditBegins(request: int, user: string, id: string, edit: Edit, at: int)
    | EditEnds(request: int, urls: seq<string>, at: int)
    | Delete(user: string, id: string)

  function BeginEdit(s: Store, request: int, user: string, id: string, edit: Edit, at: int): Store {
    var mine := LoadUserProducts(s.products, user);
    var i := IndexOf(mine, user, id);
    if i == |mine| || edit.name == Some("") then s
    else
      var edited := mine[i := Edited(mine[i], edit)];
      if QueryChanged(mine[i], edit) || edit.research then s.(pending := s.pending[request := Request(user, edited, i)])
      else s.(products := SaveUserProducts(s.products, user, edited[i := edited[i].(updatedAt := at)]))
  }

  function EndEdit(s: Store, request: int, urls: seq<string>, at: int): Store {
    if request !in s.pending || s.pending[request].index >= |s.pending[request].snapshot| then s
    else
      var r := s.pending[request];
      var mine := r.snapshot[r.index := Found(r.snapshot[r.index], urls, at)];
      Store(SaveUserProducts(s.products, r.user, mine), s.pending - {request})
  }

  function Step(s: Store, e: Event): Store {
    match e
    case Refresh(user, id, urls, at) => s.(products := UpdateOne(s.products, user, id, urls, at))
    case Post(p) => s.(products := SaveUserProducts(s.products, p.userId, LoadUserProducts(s.products, p.userId) + [p]))
    case EditBegins(request, user, id, edit, at) => BeginEdit(s, request, user, id, edit, at)
    case EditEnds(request, urls, at) => EndEdit(s, request, urls, at)
    case Delete(user, id) =>
      var mine := LoadUserProducts(s.products, user);
      var next := Without(mine, id);
      if |next| == |mine| then s else s.(products := SaveUserProducts(s.products, user, next))
  }

  function Run(s: Store, es: seq<Event>): Store {
    if es == [] then s else Step(Run(s, es[..|es| - 1]), es[|es| - 1])
  }

  /** The same history with every bulk-refresh write left out. */
  function EraseRefreshes(es: seq<Event>): seq<Event> {
    if es == [] then []
    else EraseRefreshes(es[..|es| - 1]) + if es[|es| - 1].Refresh? then [] else [es[|es| - 1]]
  }

  // ----- What a refresh may not influence -----

  /** A product without the fields the refresh writes. */
  function Bare(p: Product): Product {
    p.(urls := [], updatedAt := 0)
  }

  function BareAll(ps: seq<Product>): (r: seq<Product>)
    ensures |r| == |ps|
    ensures forall i :: 0 <= i < |ps| ==> r[i] == Bare(ps[i])
  {
    seq(|ps|, i requires 0 <= i < |ps| => Bare(ps[i]))
  }

  function BareRequest(r: Request): Request {
    r.(snapshot := BareAll(r.snapshot))
  }

  function BareStore(s: Store): Store {
    Store(BareAll(s.products), map r | r in s.pending :: BareRequest(s.pending[r]))
  }

  lemma BareConcat(a: seq<Product>, b: seq<Product>)
    ensures BareAll(a + b) == BareAll(a) + BareAll(b)
  {
  }

  lemma {:induction false} LoadIsBlind(ps: seq<Product>, user: string)
    ensures BareAll(LoadUserProducts(ps, user)) == LoadUserProducts(BareAll(ps), user)
    ensures BareAll(OthersProducts(ps, user)) == OthersProducts(BareAll(ps), user)
  {
    if ps != [] {
      LoadIsBlind(ps[1..], user);
      assert BareAll(ps)[1..] == BareAll(ps[1..]);
      BareConcat([ps[0]], LoadUserProducts(ps[1..], user));
      BareConcat([ps[0]], OthersProducts(ps[1..], user));
      assert BareAll([ps[0]]) == [Bare(ps[0])];
      assert [] + LoadUserProducts(ps[1..], user) == LoadUserProducts(ps[1..], user);
      assert [] + OthersProducts(ps[1..], user) == OthersProducts(ps[1..], user);
    }
  }

  lemma {:induction false} IndexIsBlind(ps: seq<Product>, user: string, id: string)
    ensures IndexOf(BareAll(ps), user, id) == IndexOf(ps, user, id)
  {
    if ps != [] {
      IndexIsBlind(ps[1..], user, id);
      assert BareAll(ps)[1..] == BareAll(ps[1..]);
    }
  }

  lemma {:induction false} WithoutIsBlind(ps: seq<Product>, id: string)
    ensures BareAll(Without(ps, id)) == Without(BareAll(ps), id)
  {
    if ps != [] {
      WithoutIsBlind(ps[1..], id);
      assert BareAll(ps)[1..] == BareAll(ps[1..]);
      BareConcat([ps[0]], Without(ps[1..], id));
      assert BareAll([ps[0]]) == [Bare(ps[0])];
      assert [] + Without(ps[1..], id) == Without(ps[1..], id);
    }
  }

  lemma SaveIsBlind(ps: seq<Product>, user: string, mine: seq<Product>)
    ensures BareAll(SaveUserProducts(ps, user, mine)) == SaveUserProducts(BareAll(ps), user, BareAll(mine))
  {
    LoadIsBlind(ps, user);
    BareConcat(OthersProducts(ps, user), mine);
  }

  lemma BareUpdate(ps: seq<Product>, i: nat, p: Product)
    requires i < |ps|
    ensures BareAll(ps[i := p]) == BareAll(ps)[i := Bare(p)]
  {
  }

  /** A refresh write is invisible to everything but search results and timestamps. */
  lemma RefreshIsBlind(s: Store, user: string, id: string, urls: seq<string>, at: int)
    ensures BareStore(Step(s, Refresh(user, id, urls, at))) == BareStore(s)
  {
    var i := IndexOf(s.products, user, id);
    if i < |s.products| {
      BareUpdate(s.products, i, Found(s.products[i], urls, at));
      assert BareAll(s.products)[i := Bare(s.products[i])] == BareAll(s.products);
    }
  }

  lemma BeginIsBlind(s: Store, s': Store, request: int, user: string, id: string, edit: Edit, at: int)
    requires BareStore(s) == BareStore(s')
    ensures BareStore(BeginEdit(s, request, user, id, edit, at)) == BareStore(BeginEdit(s', request, user, id, edit, at))
  {
    var mine, mine' := LoadUserProducts(s.products, user), LoadUserProducts(s'.products, user);
    LoadIsBlind(s.products, user);
    LoadIsBlind(s'.products, user);
    assert BareAll(mine) == BareAll(mine');
    IndexIsBlind(mine, user, id);
    IndexIsBlind(mine', user, id);
    var i := IndexOf(mine, user, id);
    if i < |mine| && edit.name != Some("") {
      assert |mine| == |BareAll(mine)| == |mine'|;
      assert BareAll(mine)[i] == Bare(mine[i]) && BareAll(mine')[i] == Bare(mine'[i]);
      var p, p' := Edited(mine[i], edit), Edited(mine'[i], edit);
      assert Bare(p) == Bare(p');
      BareUpdate(mine, i, p);
      BareUpdate(mine', i, p');
      if QueryChanged(mine[i], edit) || edit.research {
        PendingIsBlind(s, request, Request(user, mine[i := p], i));
        PendingIsBlind(s', request, Request(user, mine'[i := p'], i));
      } else {
        var q, q' := p.(updatedAt := at), p'.(updatedAt := at);
        assert mine[i := p][i := q] == mine[i := q] && mine'[i := p'][i := q'] == mine'[i := q'];
        BareUpdate(mine, i, q);
        BareUpdate(mine', i, q');
        SaveIsBlind(s.products, user, mine[i := q]);
        SaveIsBlind(s'.products, user, mine'[i := q']);
      }
    }
  }

  lemma PendingIsBlind(s: Store, request: int, r: Request)
    ensures BareStore(s.(pending := s.pending[request := r])) ==
            BareStore(s).(pending := BareStore(s).pending[request := BareRequest(r)])
  {
  }

  lemma EndIsBlind(s: Store, s': Store, request: int, urls: seq<string>, at: int)
    requires BareStore(s) == BareStore(s')
    ensures BareStore(EndEdit(s, request, urls, at)) == BareStore(EndEdit(s', request, urls, at))
  {
    assert request in s.pending <==> request in BareStore(s).pending;
    assert request in s'.pending <==> request in BareStore(s').pending;
    if request in s.pending {
      var r, r' := s.pending[request], s'.pending[request];
      assert BareRequest(r) == BareStore(s).pending[request] == BareStore(s').pending[request] == BareRequest(r');
      assert |r.snapshot| == |BareAll(r.snapshot)| == |r'.snapshot|;
      if r.index < |r.snapshot| {
        var i := r.index;
        var p, p' := Found(r.snapshot[i], urls, at), Found(r'.snapshot[i], urls, at);
        assert Bare(p) == BareAll(r.snapshot)[i] == BareAll(r'.snapshot)[i] == Bare(p');
        BareUpdate(r.snapshot, i, p);
        BareUpdate(r'.snapshot, i, p');
        SaveIsBlind(s.products, r.user, r.snapshot[i := p]);
        SaveIsBlind(s'.products, r.user, r'.snapshot[i := p']);
        assert BareStore(EndEdit(s, request, urls, at)).pending == BareStore(s).pending - {request};
        assert BareStore(EndEdit(s', request, urls, at)).pending == BareStore(s').pending - {request};
      }
    }
  }

  /** Every other step does the same to two stores that differ only in search results and timestamps. */
  lemma StepIsBlind(s: Store, s': Store, e: Event)
    requires BareStore(s) == BareStore(s') && !e.Refresh?
    ensures BareStore(Step(s, e)) == BareStore(Step(s', e))
  {
    match e
    case Post(p) =>
      var mine, mine' := LoadUserProducts(s.products, p.userId), LoadUserProducts(s'.products, p.userId);
      LoadIsBlind(s.products, p.userId);
      LoadIsBlind(s'.products, p.userId);
      BareConcat(mine, [p]);
      BareConcat(mine', [p]);
      SaveIsBlind(s.products, p.userId, mine + [p]);
      SaveIsBlind(s'.products, p.userId, mine' + [p]);
    case EditBegins(request, user, id, edit, at) => BeginIsBlind(s, s', request, user, id, edit, at);
    case EditEnds(request, urls, at) => EndIsBlind(s, s', request, urls, at);
    case Delete(user, id) =>
      var mine, mine' := LoadUserProducts(s.products, user), LoadUserProducts(s'.products, user);
      LoadIsBlind(s.products, user);
      LoadIsBlind(s'.products, user);
      WithoutIsBlind(mine, id);
      WithoutIsBlind(mine', id);
      assert |mine| == |BareAll(mine)| == |mine'| && |Without(mine, id)| == |BareAll(Without(mine, id))| == |Without(mine', id)|;
      SaveIsBlind(s.products, user, Without(mine, id));
      SaveIsBlind(s'.products, user, Without(mine', id));
  }

  /**
   * In any interleaving of bulk-refresh writes with edits, adds, deletes and saves of stale snapshots,
   * leaving every refresh write out gives the same file up to search results and timestamps.
   */
  lemma {:induction false} RefreshDoesNotInterfere(s: Store, es: seq<Event>)
    ensures BareStore(Run(s, es)) == BareStore(Run(s, EraseRefreshes(es)))
  {
    if es != [] {
      var init, last := es[..|es| - 1], es[|es| - 1];
      RefreshDoesNotInterfere(s, init);
      var erased := EraseRefreshes(init);
      if last.Refresh? {
        RefreshIsBlind(Run(s, init), last.user, last.id, last.urls, last.at);
        assert erased + [] == erased;
      } else {
        StepIsBlind(Run(s, init), Run(s, erased), last);
        assert (erased + [last])[..|erased|] == erased;
      }
    }
  }

  /** One refresh write: no other list, no other product and no other field changes, and a product that is gone stays gone. */
  lemma RefreshIsLocal(ps: seq<Product>, user: string, id: string, urls: seq<string>, at: int)
    ensures var next := UpdateOne(ps, user, id, urls, at);
            && |next| == |ps|
            && (forall other :: other != user ==> LoadUserProducts(next, other) == LoadUserProducts(ps, other))
            && (forall i :: 0 <= i < |ps| ==> Bare(next[i]) == Bare(ps[i]) && (ps[i].id != id || ps[i].userId != user ==> next[i] == ps[i]))
            && ((forall p :: p in ps ==> p.id != id || p.userId != user) ==> next == ps)
  {
    var i := IndexOf(ps, user, id);
    if i < |ps| {
      assert ps[i] in ps;
      forall other | other != user ensures LoadUserProducts(UpdateOne(ps, user, id, urls, at), other) == LoadUserProducts(ps, other) {
        LoadOfOthers(ps, i, Found(ps[i], urls, at), other);
      }
    }
  }

  lemma {:induction false} LoadOfOthers(ps: seq<Product>, i: nat, p: Product, other: string)
    requires i < |ps| && p.userId == ps[i].userId != other
    ensures LoadUserProducts(ps[i := p], other) == LoadUserProducts(ps, other)
  {
    if i == 0 {
      assert ps[i := p][1..] == ps[1..];
    } else {
      assert ps[i := p][1..] == ps[1..][i - 1 := p];
      LoadOfOthers(ps[1..], i - 1, p, other);
    }
  }

  lemma AnyStepIsBlind(s: Store, s': Store, e: Event)
    requires BareStore(s) == BareStore(s')
    ensures BareStore(Step(s, e)) == BareStore(Step(s', e))
  {
    hide BareStore;
    if e.Refresh? {
      RefreshIsBlind(s, e.user, e.id, e.urls, e.at);
      RefreshIsBlind(s', e.user, e.id, e.urls, e.at);
    } else {
      StepIsBlind(s, s', e);
    }
  }

  lemma RunSnoc(s: Store, es: seq<Event>, e: Event)
    ensures Run(s, es + [e]) == Step(Run(s, es), e)
  {
    assert (es + [e])[..|es|] == es;
  }

  /** The server's state; every method is one stretch of code between two waits, but for the refresh loop. */
  class Server {
    var store: Store

    constructor (store: Store)
      ensures this.store == store
    {
      this.store := store;
    }

    /** Writes a search result against the file as it is now; None when the product is gone. */
    method UpdateOneProduct(user: string, id: string, urls: seq<string>, at: int) returns (updated: Option<Product>)
      modifies this
      ensures store == Step(old(store), Refresh(user, id, urls, at))
      ensures updated.None? <==> IndexOf(old(store).products, user, id) == |old(store).products|
      ensures updated.Some? ==> updated.value in store.products && updated.value.id == id && updated.value.userId == user
      ensures updated.Some? ==> updated.value.urls == urls && updated.value.updatedAt == at
    {
      var i := IndexOf(store.products, user, id);
      if i == |store.products| {
        return None;
      }
      var p := Found(store.products[i], urls, at);
      store := store.(products := store.products[i := p]);
      assert store.products[i] == p;
      return Some(p);
    }

    /** Adds the searched product to the list as it is now. */
    method PostProduct(product: Product)
      modifies this
      ensures store == Step(old(store), Post(product))
    {
      var mine := LoadUserProducts(store.products, product.userId);
      mine := mine + [product];
      store := store.(products := SaveUserProducts(store.products, product.userId, mine));
    }

    /** Loads the list, edits one product of it, and either saves at once or goes to wait for a search. */
    method PutProduct(request: int, user: string, id: string, edit: Edit, at: int)
      modifies this
      ensures store == Step(old(store), EditBegins(request, user, id, edit, at))
      ensures forall u :: u != user ==> LoadUserProducts(store.products, u) == LoadUserProducts(old(store).products, u)
      ensures var mine := LoadUserProducts(old(store).products, user);
              var i := IndexOf(mine, user, id);
              if Waits(old(store), EditBegins(request, user, id, edit, at)) then
                store.products == old(store).products
                && request in store.pending && SameBut(store.pending[request].snapshot, mine, i)
              else
                store.pending == old(store).pending && SameBut(LoadUserProducts(store.products, user), mine, i)
    {
      EditBeginsQuietly(store, EditBegins(request, user, id, edit, at));
      var mine := LoadUserProducts(store.products, user);
      var i := IndexOf(mine, user, id);
      if i == |mine| || edit.name == Some("") {
        return;
      }
      var before := mine[i];
      mine := mine[i := Edited(mine[i], edit)];
      if QueryChanged(before, edit) || edit.research {
        store := store.(pending := store.pending[request := Request(user, mine, i)]);
      } else {
        mine := mine[i := mine[i].(updatedAt := at)];
        store := store.(products := SaveUserProducts(store.products, user, mine));
      }
    }

    /** The search came back: the list loaded before it started is saved with the result in it. */
    method SaveSearched(request: int, urls: seq<string>, at: int)
      modifies this
      ensures store == Step(old(store), EditEnds(request, urls, at))
      ensures Owned(old(store)) && request in old(store).pending ==>
                var r := old(store).pending[request];
                && LoadUserProducts(store.products, r.user) == r.snapshot[r.index := Found(r.snapshot[r.index], urls, at)]
                && store.pending == old(store).pending - {request}
                && forall u :: u != r.user ==> LoadUserProducts(store.products, u) == LoadUserProducts(old(store).products, u)
      ensures request !in old(store).pending ==> store == old(store)
    {
      if Owned(store) && request in store.pending {
        SaveBehindSearch(store, request, urls, at);
      }
      if request in store.pending && store.pending[request].index < |store.pending[request].snapshot| {
        var r := store.pending[request];
        var mine := r.snapshot[r.index := Found(r.snapshot[r.index], urls, at)];
        store := Store(SaveUserProducts(store.products, r.user, mine), store.pending - {request});
      }
    }

    method DeleteProduct(user: string, id: string)
      modifies this
      ensures store == Step(old(store), Delete(user, id))
      ensures store.pending == old(store).pending
      ensures LoadUserProducts(store.products, user) == Without(LoadUserProducts(old(store).products, user), id)
      ensures forall p :: p in LoadUserProducts(store.products, user) <==>
                            p in LoadUserProducts(old(store).products, user) && p.id != id
      ensures forall u :: u != user ==> LoadUserProducts(store.products, u) == LoadUserProducts(old(store).products, u)
    {
      DeleteTakesOnlyThat(store, user, id);
      var mine := LoadUserProducts(store.products, user);
      var next := Without(mine, id);
      if |next| != |mine| {
        store := store.(products := SaveUserProducts(store.products, user, next));
      }
    }

    /** A request runs up to its next wait. */
    method Serve(e: Event)
      modifies this
      ensures store == Step(old(store), e)
    {
      hide Step;
      match e
      case Refresh(user, id, urls, at) =>
        var _ := UpdateOneProduct(user, id, urls, at);
      case Post(product) => PostProduct(product);
      case EditBegins(request, user, id, edit, at) => PutProduct(request, user, id, edit, at);
      case EditEnds(request, urls, at) => SaveSearched(request, urls, at);
      case Delete(user, id) => DeleteProduct(user, id);
    }

    /**
     * The refresh loop over the products the list held at the start. While it waits for the search of the
     * k-th product, the steps `during[k]` of other requests happen; then it writes what it found.
     */
    method RefreshProductsForUser(user: string, found: seq<(seq<string>, int)>, during: seq<seq<Event>>)
      returns (result: seq<Product>)
      requires |found| == |during| == |LoadUserProducts(store.products, user)|
      modifies this
      ensures store == Run(old(store), RefreshSteps(user, LoadUserProducts(old(store).products, user), found, during))
      ensures BareStore(store) == BareStore(Run(old(store), EraseRefreshes(Flatten(during))))
      ensures result == LoadUserProducts(store.products, user)
      ensures var mine := LoadUserProducts(old(store).products, user);
              NothingDuring(during) && UniqueIds(mine) ==> result == FoundFor(mine, found)
    {
      hide BareStore;
      hide FoundFor;
      hide LoadUserProducts;
      hide NothingDuring;
      hide UniqueIds;
      hide Step;
      hide Run;
      hide RefreshSteps;
      hide EraseRefreshes;
      var products := LoadUserProducts(store.products, user);
      NothingHappened(store, user, products, found, during);
      for k := 0 to |products|
        invariant store == Run(old(store), RefreshSteps(user, products[..k], found[..k], during[..k]))
      {
        ghost var before := RefreshSteps(user, products[..k], found[..k], during[..k]);
        assert before + during[k][..0] == before;
        for j := 0 to |during[k]|
          invariant store == Run(old(store), before + during[k][..j])
        {
          RunSnoc(old(store), before + during[k][..j], during[k][j]);
          assert before + during[k][..j + 1] == before + during[k][..j] + [during[k][j]];
          Serve(during[k][j]);
        }
        assert during[k][..|during[k]|] == during[k];
        RefreshStepsSnoc(user, products, found, during, k);
        RunSnoc(old(store), before + during[k], Refresh(user, products[k].id, found[k].0, found[k].1));
        var _ := UpdateOneProduct(user, products[k].id, found[k].0, found[k].1);
      }
      assert products[..|products|] == products && found[..|products|] == found && during[..|products|] == during;
      RefreshDoesNotInterfere(old(store), RefreshSteps(user, products, found, during));
      StepsWithoutRefreshes(user, products, found, during);
      if NothingDuring(during) && UniqueIds(products) {
        RefreshWritesAll(old(store), user, found, during, |products|);
      }
      result := LoadUserProducts(store.products, user);
    }
  }

  /** The steps of a refresh: for one product after the other, those during its search, then the write of what it found. */
  function RefreshSteps(user: string, products: seq<Product>, found: seq<(seq<string>, int)>, during: seq<seq<Event>>): seq<Event>
    requires |products| == |found| == |during|
  {
    if products == [] then []
    else
      var k := |products| - 1;
      RefreshSteps(user, products[..k], found[..k], during[..k])
      + during[k] + [Refresh(user, products[k].id, found[k].0, found[k].1)]
  }

  lemma RefreshStepsSnoc(
    user: string, products: seq<Product>, found: seq<(seq<string>, int)>, during: seq<seq<Event>>, k: nat)
    requires |products| == |found| == |during| && k < |products|
    ensures RefreshSteps(user, products[..k + 1], found[..k + 1], during[..k + 1]) ==
            RefreshSteps(user, products[..k], found[..k], during[..k])
            + during[k] + [Refresh(user, products[k].id, found[k].0, found[k].1)]
  {
    assert products[..k + 1][..k] == products[..k] && found[..k + 1][..k] == found[..k] && during[..k + 1][..k] == during[..k];
  }

  lemma {:induction false} EraseConcat(a: seq<Event>, b: seq<Event>)
    ensures EraseRefreshes(a + b) == EraseRefreshes(a) + EraseRefreshes(b)
  {
    if b == [] {
      assert a + b == a;
    } else {
      var n := |b| - 1;
      EraseConcat(a, b[..n]);
      assert (a + b)[..|a + b| - 1] == a + b[..n];
      Assoc(EraseRefreshes(a), EraseRefreshes(b[..n]), if b[n].Refresh? then [] else [b[n]]);
    }
  }

  lemma EraseWrite(e: Event)
    requires e.Refresh?
    ensures EraseRefreshes([e]) == []
  {
    assert [e][..0] == [];
  }

  /** Without its refreshes, a refresh is what happened during its searches. */
  lemma {:induction false} StepsWithoutRefreshes(
    user: string, products: seq<Product>, found: seq<(seq<string>, int)>, during: seq<seq<Event>>)
    requires |products| == |found| == |during|
    ensures EraseRefreshes(RefreshSteps(user, products, found, during)) == EraseRefreshes(Flatten(during))
  {
    if products != [] {
      var k := |products| - 1;
      var before, write := RefreshSteps(user, products[..k], found[..k], during[..k]),
                           Refresh(user, products[k].id, found[k].0, found[k].1);
      StepsWithoutRefreshes(user, products[..k], found[..k], during[..k]);
      EraseWrite(write);
      assert RefreshSteps(user, products, found, during) == before + during[k] + [write];
      hide RefreshSteps;
      hide EraseRefreshes;
      EraseConcat(before + during[k], [write]);
      EraseConcat(before, during[k]);
      FlattenSnoc(during[..k], during[k]);
      EraseConcat(Flatten(during[..k]), during[k]);
      assert during[..k] + [during[k]] == during;
    }
  }

  lemma NothingHappened(s: Store, user: string, products: seq<Product>, found: seq<(seq<string>, int)>, during: seq<seq<Event>>)
    requires |products| == |found| == |during|
    ensures Run(s, RefreshSteps(user, products[..0], found[..0], during[..0])) == s
  {
  }

  // ----- What a refresh writes -----

  /** A product in the list has the search result and its time afterwards, and everything else as before. */
  lemma RefreshIsWritten(ps: seq<Product>, user: string, id: string, urls: seq<string>, at: int)
    requires exists p <- ps :: p.id == id && p.userId == user
    ensures exists i :: 0 <= i < |ps| && ps[i].id == id && ps[i].userId == user
              && (forall k :: 0 <= k < i ==> ps[k].id != id || ps[k].userId != user)
              && UpdateOne(ps, user, id, urls, at) == ps[i := ps[i].(urls := urls, updatedAt := at)]
  {
    FirstOfItsId(ps, user, id);
    var i := IndexOf(ps, user, id);
    assert ps[i].id == id && ps[i].userId == user;
  }

  lemma {:induction false} FirstOfItsId(ps: seq<Product>, user: string, id: string)
    ensures forall k :: 0 <= k < IndexOf(ps, user, id) ==> ps[k].id != id || ps[k].userId != user
  {
    if ps != [] && !(ps[0].id == id && ps[0].userId == user) {
      FirstOfItsId(ps[1..], user, id);
    }
  }

  lemma UpdateOneCons(p: Product, ps: seq<Product>, user: string, id: string, urls: seq<string>, at: int)
    ensures UpdateOne([p] + ps, user, id, urls, at) ==
            if p.id == id && p.userId == user then [Found(p, urls, at)] + ps
            else [p] + UpdateOne(ps, user, id, urls, at)
  {
    assert ([p] + ps)[1..] == ps;
    var i := IndexOf(ps, user, id);
    if !(p.id == id && p.userId == user) && i < |ps| {
      assert ([p] + ps)[i + 1 := Found(ps[i], urls, at)] == [p] + ps[i := Found(ps[i], urls, at)];
    }
  }

  lemma LoadCons(p: Product, ps: seq<Product>, user: string)
    ensures LoadUserProducts([p] + ps, user) ==
            if p.userId == user then [p] + LoadUserProducts(ps, user) else LoadUserProducts(ps, user)
  {
    assert ([p] + ps)[1..] == ps;
  }

  lemma {:induction false} UpdateInList(ps: seq<Product>, user: string, id: string, urls: seq<string>, at: int)
    ensures LoadUserProducts(UpdateOne(ps, user, id, urls, at), user) ==
            UpdateOne(LoadUserProducts(ps, user), user, id, urls, at)
  {
    if ps != [] {
      UpdateInList(ps[1..], user, id, urls, at);
      var p, rest := ps[0], ps[1..];
      assert ps == [p] + rest;
      UpdateOneCons(p, rest, user, id, urls, at);
      UpdateOneCons(p, LoadUserProducts(rest, user), user, id, urls, at);
      LoadCons(p, rest, user);
      LoadCons(p, UpdateOne(rest, user, id, urls, at), user);
      LoadCons(Found(p, urls, at), rest, user);
      hide LoadUserProducts;
      hide UpdateOne;
    }
  }

  predicate UniqueIds(ps: seq<Product>) {
    forall i, j :: 0 <= i < j < |ps| ==> ps[i].id != ps[j].id
  }

  /** The first products with what was found for them, the others as they were. */
  function FoundFor(mine: seq<Product>, found: seq<(seq<string>, int)>): (r: seq<Product>)
    requires |found| <= |mine|
    ensures |r| == |mine|
  {
    seq(|mine|, k requires 0 <= k < |mine| =>
      if k < |found| then mine[k].(urls := found[k].0, updatedAt := found[k].1) else mine[k])
  }

  lemma NextIsFound(mine: seq<Product>, user: string, found: seq<(seq<string>, int)>, k: nat)
    requires OwnList(mine, user) && UniqueIds(mine) && |found| <= |mine| && k < |found|
    ensures UpdateOne(FoundFor(mine, found[..k]), user, mine[k].id, found[k].0, found[k].1) == FoundFor(mine, found[..k + 1])
  {
    var before := FoundFor(mine, found[..k]);
    assert before[k] == mine[k];
    FirstOfItsId(before, user, mine[k].id);
    OwnIsFound(before, user, mine[k].id, k);
    assert IndexOf(before, user, mine[k].id) == k;
  }

  lemma {:induction false} OwnIsFound(ps: seq<Product>, user: string, id: string, k: nat)
    requires k < |ps| && ps[k].id == id && ps[k].userId == user
    requires forall i :: 0 <= i < k ==> ps[i].id != id
    ensures IndexOf(ps, user, id) == k
  {
    if k > 0 {
      OwnIsFound(ps[1..], user, id, k - 1);
    }
  }

  predicate NothingDuring(during: seq<seq<Event>>) {
    forall k :: 0 <= k < |during| ==> during[k] == []
  }

  /** A refresh that nothing comes in between of gives every product of the list what was found for it, and no other. */
  lemma {:induction false} RefreshWritesAll(
    s: Store, user: string, found: seq<(seq<string>, int)>, during: seq<seq<Event>>, n: nat)
    requires var mine := LoadUserProducts(s.products, user);
             |found| == |during| == |mine| && n <= |mine| && UniqueIds(mine)
    requires NothingDuring(during)
    ensures var mine := LoadUserProducts(s.products, user);
            var after := Run(s, RefreshSteps(user, mine[..n], found[..n], during[..n]));
            && LoadUserProducts(after.products, user) == FoundFor(mine, found[..n])
            && after.pending == s.pending
            && forall u :: u != user ==> LoadUserProducts(after.products, u) == LoadUserProducts(s.products, u)
  {
    var mine := LoadUserProducts(s.products, user);
    if n == 0 {
      assert FoundFor(mine, found[..0]) == mine;
    } else {
      var k := n - 1;
      RefreshWritesAll(s, user, found, during, k);
      RefreshStepsSnoc(user, mine, found, during, k);
      hide LoadUserProducts;
      hide UpdateOne;
      hide FoundFor;
      var before, write := RefreshSteps(user, mine[..k], found[..k], during[..k]), Refresh(user, mine[k].id, found[k].0, found[k].1);
      assert before + during[k] + [write] == before + [write];
      RunSnoc(s, before, write);
      var ps := Run(s, before).products;
      LoadedIsOwn(s.products, user);
      NextIsFound(mine, user, found, k);
      UpdateInList(ps, user, mine[k].id, found[k].0, found[k].1);
      RefreshIsLocal(ps, user, mine[k].id, found[k].0, found[k].1);
    }
  }

  // ----- When the save behind a search undoes something -----

  /** Requests in flight hold their own user's list, with the product they edit in it. */
  predicate Owned(s: Store) {
    forall request <- s.pending :: OwnRequest(s.pending[request])
  }

  predicate OwnRequest(r: Request) {
    r.index < |r.snapshot| && OwnList(r.snapshot, r.user)
  }

  predicate OwnList(ps: seq<Product>, user: string) {
    forall i :: 0 <= i < |ps| ==> ps[i].userId == user
  }

  /** The lists agree in length and everywhere but at one place. */
  predicate SameBut(a: seq<Product>, b: seq<Product>, i: nat) {
    |a| == |b| && forall k :: 0 <= k < |a| && k != i ==> a[k] == b[k]
  }

  lemma {:induction false} LoadedIsOwn(ps: seq<Product>, user: string)
    ensures OwnList(LoadUserProducts(ps, user), user)
  {
    if ps != [] {
      LoadedIsOwn(ps[1..], user);
    }
  }

  lemma {:induction false} LoadConcat(a: seq<Product>, b: seq<Product>, user: string)
    ensures LoadUserProducts(a + b, user) == LoadUserProducts(a, user) + LoadUserProducts(b, user)
  {
    if a == [] {
      assert a + b == b;
    } else {
      LoadConcat(a[1..], b, user);
      assert (a + b)[0] == a[0] && (a + b)[1..] == a[1..] + b;
      Assoc(if a[0].userId == user then [a[0]] else [], LoadUserProducts(a[1..], user), LoadUserProducts(b, user));
    }
  }

  lemma {:induction false} LoadOfOwn(mine: seq<Product>, user: string, u: string)
    requires OwnList(mine, user)
    ensures LoadUserProducts(mine, u) == if u == user then mine else []
  {
    if mine != [] {
      LoadOfOwn(mine[1..], user, u);
    }
  }

  lemma {:induction false} LoadWithout(ps: seq<Product>, user: string, u: string)
    ensures LoadUserProducts(OthersProducts(ps, user), u) == if u == user then [] else LoadUserProducts(ps, u)
  {
    if ps != [] {
      LoadWithout(ps[1..], user, u);
      if ps[0].userId != user {
        assert ([ps[0]] + OthersProducts(ps[1..], user))[1..] == OthersProducts(ps[1..], user);
      } else {
        assert [] + OthersProducts(ps[1..], user) == OthersProducts(ps[1..], user);
      }
    }
  }

  /** A save gives the user the new list and leaves every other list alone. */
  lemma LoadSaved(ps: seq<Product>, user: string, mine: seq<Product>, u: string)
    requires OwnList(mine, user)
    ensures LoadUserProducts(SaveUserProducts(ps, user, mine), u) == if u == user then mine else LoadUserProducts(ps, u)
  {
    LoadConcat(OthersProducts(ps, user), mine, u);
    LoadWithout(ps, user, u);
    LoadOfOwn(mine, user, u);
  }

  /**
   * The save behind a search leaves every other product of the list as the file held it just before exactly when
   * the snapshot it goes back to agrees with the file's list at every place but the edited one. Other lists never
   * change.
   */
  lemma StaleSaveUndoesNothingIff(s: Store, request: int, urls: seq<string>, at: int, other: string)
    requires Owned(s) && request in s.pending && other != s.pending[request].user
    ensures var r := s.pending[request];
            var before, after := s.products, EndEdit(s, request, urls, at).products;
            && (SameBut(LoadUserProducts(after, r.user), LoadUserProducts(before, r.user), r.index) <==>
                SameBut(r.snapshot, LoadUserProducts(before, r.user), r.index))
            && LoadUserProducts(after, other) == LoadUserProducts(before, other)
  {
    var r := s.pending[request];
    assert OwnRequest(r);
    var mine := r.snapshot[r.index := Found(r.snapshot[r.index], urls, at)];
    LoadSaved(s.products, r.user, mine, r.user);
    LoadSaved(s.products, r.user, mine, other);
    hide LoadUserProducts;
    hide SaveUserProducts;
  }

  /** An edit that has to wait for a search. */
  predicate Waits(s: Store, e: Event) {
    && e.EditBegins?
    && var mine := LoadUserProducts(s.products, e.user);
       var i := IndexOf(mine, e.user, e.id);
       i < |mine| && e.edit.name != Some("") && (QueryChanged(mine[i], e.edit) || e.edit.research)
  }

  /** The event writes to the user's list. */
  predicate Saves(s: Store, e: Event, user: string) {
    match e
    case Refresh(u, _, _, _) => u == user
    case Post(p) => p.userId == user
    case EditBegins(_, u, _, _, _) => u == user && !Waits(s, e)
    case EditEnds(request, _, _) => request in s.pending && s.pending[request].user == user
    case Delete(u, _) => u == user
  }

  predicate IsAbout(e: Event, request: int) {
    (e.EditBegins? || e.EditEnds?) && e.request == request
  }

  lemma StepStaysOwned(s: Store, e: Event)
    requires Owned(s)
    ensures Owned(Step(s, e))
  {
    if e.EditBegins? {
      LoadedIsOwn(s.products, e.user);
    }
  }

  lemma EndKeepsOthers(s: Store, request: int, urls: seq<string>, at: int, user: string)
    requires Owned(s) && (request in s.pending ==> s.pending[request].user != user)
    ensures LoadUserProducts(EndEdit(s, request, urls, at).products, user) == LoadUserProducts(s.products, user)
  {
    if request in s.pending {
      assert OwnRequest(s.pending[request]);
      StaleSaveUndoesNothingIff(s, request, urls, at, user);
    }
  }

  lemma BeginKeepsOthers(s: Store, e: Event, user: string)
    requires e.EditBegins? && !Saves(s, e, user)
    ensures LoadUserProducts(Step(s, e).products, user) == LoadUserProducts(s.products, user)
  {
    hide LoadUserProducts;
    hide SaveUserProducts;
    var mine := LoadUserProducts(s.products, e.user);
    var i := IndexOf(mine, e.user, e.id);
    LoadedIsOwn(s.products, e.user);
    if i < |mine| && e.edit.name != Some("") && !Waits(s, e) {
      var edited := mine[i := Edited(mine[i], e.edit)];
      LoadSaved(s.products, e.user, edited[i := edited[i].(updatedAt := e.at)], user);
    }
  }

  lemma QuietStepKeepsList(s: Store, e: Event, user: string)
    requires Owned(s) && !Saves(s, e, user)
    ensures LoadUserProducts(Step(s, e).products, user) == LoadUserProducts(s.products, user)
  {
    match e
    case Refresh(u, id, urls, at) => RefreshIsLocal(s.products, u, id, urls, at);
    case Post(p) =>
      LoadedIsOwn(s.products, p.userId);
      LoadSaved(s.products, p.userId, LoadUserProducts(s.products, p.userId) + [p], user);
    case EditBegins(_, _, _, _, _) => BeginKeepsOthers(s, e, user);
    case EditEnds(request, urls, at) => EndKeepsOthers(s, request, urls, at, user);
    case Delete(u, id) =>
      LoadedIsOwn(s.products, u);
      WithoutIsOwn(LoadUserProducts(s.products, u), u, id);
      LoadSaved(s.products, u, Without(LoadUserProducts(s.products, u), id), user);
  }

  lemma {:induction false} WithoutIsOwn(ps: seq<Product>, user: string, id: string)
    requires OwnList(ps, user)
    ensures OwnList(Without(ps, id), user)
  {
    if ps != [] {
      WithoutIsOwn(ps[1..], user, id);
    }
  }

  /** While nobody writes to the list and the request waits, both stay as they are. */
  lemma {:induction false} QuietRun(s: Store, es: seq<Event>, request: int, user: string)
    requires Owned(s) && request in s.pending
    requires forall k :: 0 <= k < |es| ==> !Saves(Run(s, es[..k]), es[k], user) && !IsAbout(es[k], request)
    ensures Owned(Run(s, es))
    ensures request in Run(s, es).pending && Run(s, es).pending[request] == s.pending[request]
    ensures LoadUserProducts(Run(s, es).products, user) == LoadUserProducts(s.products, user)
  {
    hide Saves;
    hide Owned;
    hide LoadUserProducts;
    if es != [] {
      var init, e := es[..|es| - 1], es[|es| - 1];
      forall k | 0 <= k < |init| ensures init[..k] == es[..k] && init[k] == es[k] {
      }
      QuietRun(s, init, request, user);
      assert es[..|es| - 1] == init;
      StepStaysOwned(Run(s, init), e);
      QuietStepKeepsList(Run(s, init), e, user);
      OtherRequestWaits(Run(s, init), e, request);
    }
  }

  lemma OtherRequestWaits(s: Store, e: Event, request: int)
    requires request in s.pending && !IsAbout(e, request)
    ensures request in Step(s, e).pending && Step(s, e).pending[request] == s.pending[request]
  {
  }

  lemma BeginTakesSnapshot(s: Store, e: Event)
    requires Owned(s) && Waits(s, e)
    ensures var mine := LoadUserProducts(s.products, e.user);
            var i := IndexOf(mine, e.user, e.id);
            && Step(s, e) == s.(pending := s.pending[e.request := Request(e.user, mine[i := Edited(mine[i], e.edit)], i)])
            && Owned(Step(s, e))
  {
    StepStaysOwned(s, e);
  }

  /**
   * An edit undoes nothing if nothing was written to its list between its begin and its end: then the list it
   * leaves is the list it found, with only the edited product changed.
   */
  lemma UndisturbedEditUndoesNothing(s: Store, begin: Event, es: seq<Event>, urls: seq<string>, at: int)
    requires Owned(s) && Waits(s, begin)
    requires var s1 := Step(s, begin);
             forall k :: 0 <= k < |es| ==>
               !Saves(Run(s1, es[..k]), es[k], begin.user) && !IsAbout(es[k], begin.request)
    ensures var mine := LoadUserProducts(s.products, begin.user);
            var i := IndexOf(mine, begin.user, begin.id);
            var after := Step(Run(Step(s, begin), es), EditEnds(begin.request, urls, at));
            && i < |mine|
            && LoadUserProducts(after.products, begin.user) == mine[i := Found(Edited(mine[i], begin.edit), urls, at)]
  {
    hide LoadUserProducts;
    hide Saves;
    var mine := LoadUserProducts(s.products, begin.user);
    var i := IndexOf(mine, begin.user, begin.id);
    var s1 := Step(s, begin);
    BeginTakesSnapshot(s, begin);
    QuietRun(s1, es, begin.request, begin.user);
    hide Run;
    hide Owned;
    var edited := Edited(mine[i], begin.edit);
    SaveBehindSearch(Run(s1, es), begin.request, urls, at);
    hide Step;
    hide Edited;
    hide Waits;
    assert mine[i := edited][i := Found(edited, urls, at)] == mine[i := Found(edited, urls, at)];
  }

  /** The save behind a search: the list is the snapshot with the result in it, and no other list changes. */
  lemma SaveBehindSearch(s: Store, request: int, urls: seq<string>, at: int)
    requires Owned(s) && request in s.pending
    ensures var r := s.pending[request];
            var after := Step(s, EditEnds(request, urls, at));
            && r.index < |r.snapshot|
            && LoadUserProducts(after.products, r.user) == r.snapshot[r.index := Found(r.snapshot[r.index], urls, at)]
            && after.pending == s.pending - {request}
            && forall u :: u != r.user ==> LoadUserProducts(after.products, u) == LoadUserProducts(s.products, u)
  {
    var r := s.pending[request];
    assert OwnRequest(r);
    var mine := r.snapshot[r.index := Found(r.snapshot[r.index], urls, at)];
    hide LoadUserProducts;
    hide SaveUserProducts;
    hide Found;
    forall u
      ensures LoadUserProducts(SaveUserProducts(s.products, r.user, mine), u) ==
              if u == r.user then mine else LoadUserProducts(s.products, u)
    {
      LoadSaved(s.products, r.user, mine, u);
    }
  }

  /** An edit begins: it waits with its snapshot and writes nothing, or changes one product of its own list. */
  lemma EditBeginsQuietly(s: Store, e: Event)
    requires e.EditBegins?
    ensures var mine, after := LoadUserProducts(s.products, e.user), Step(s, e);
            var i := IndexOf(mine, e.user, e.id);
            && (forall u :: u != e.user ==> LoadUserProducts(after.products, u) == LoadUserProducts(s.products, u))
            && (Waits(s, e) ==>
                  after.products == s.products && after.pending - {e.request} == s.pending - {e.request}
                  && e.request in after.pending && after.pending[e.request].user == e.user
                  && after.pending[e.request].index == i
                  && SameBut(after.pending[e.request].snapshot, mine, i)
                  && after.pending[e.request].snapshot[i] == Edited(mine[i], e.edit))
            && (!Waits(s, e) ==>
                  after.pending == s.pending && SameBut(LoadUserProducts(after.products, e.user), mine, i))
  {
    if Waits(s, e) {
      EditGoesToWait(s, e);
    } else {
      EditDoesNotWait(s, e);
    }
    hide LoadUserProducts;
    hide IndexOf;
    hide Step;
    hide Waits;
    hide SameBut;
    hide Edited;
  }

  lemma EditGoesToWait(s: Store, e: Event)
    requires Waits(s, e)
    ensures var mine := LoadUserProducts(s.products, e.user);
            var i := IndexOf(mine, e.user, e.id);
            && i < |mine|
            && Step(s, e) == s.(pending := s.pending[e.request := Request(e.user, mine[i := Edited(mine[i], e.edit)], i)])
            && SameBut(mine[i := Edited(mine[i], e.edit)], mine, i)
  {
    hide LoadUserProducts;
    hide SaveUserProducts;
    hide Edited;
  }

  lemma EditDoesNotWait(s: Store, e: Event)
    requires e.EditBegins? && !Waits(s, e)
    ensures var mine := LoadUserProducts(s.products, e.user);
            && Step(s, e).pending == s.pending
            && (forall u :: u != e.user ==> LoadUserProducts(Step(s, e).products, u) == LoadUserProducts(s.products, u))
            && SameBut(LoadUserProducts(Step(s, e).products, e.user), mine, IndexOf(mine, e.user, e.id))
  {
    var mine := LoadUserProducts(s.products, e.user);
    var i := IndexOf(mine, e.user, e.id);
    LoadedIsOwn(s.products, e.user);
    hide LoadUserProducts;
    hide SaveUserProducts;
    if i < |mine| && e.edit.name != Some("") {
      var edited := mine[i := Edited(mine[i], e.edit)];
      var saved := edited[i := edited[i].(updatedAt := e.at)];
      forall u
        ensures LoadUserProducts(SaveUserProducts(s.products, e.user, saved), u) ==
                if u == e.user then saved else LoadUserProducts(s.products, u)
      {
        LoadSaved(s.products, e.user, saved, u);
      }
    }
  }

  /** What an edit makes of a product: the fields it names, and no other. */
  predicate Applied(p: Product, q: Product, edit: Edit) {
    && q.id == p.id && q.userId == p.userId && q.createdAt == p.createdAt && q.urls == p.urls && q.updatedAt == p.updatedAt
    && (if edit.name.Some? then q.name == edit.name.value else q.name == p.name)
    && (if edit.brand.Some? then q.brand == edit.brand.value else q.brand == p.brand)
    && (if edit.category.Some? then q.category == edit.category.value else q.category == p.category)
    && (if edit.overrides.Some? then q.overrides == edit.overrides.value else q.overrides == p.overrides)
  }

  /**
   * What an edit does up to its wait. It does nothing without such a product in the list or with an empty name. Else it
   * edits the first such product, and waits with that list for a search if the route asks for one or the name or the brand
   * is another; if neither, it saves the list with the time of the edit.
   */
  lemma EditMeaning(s: Store, e: Event, i: nat)
    requires e.EditBegins?
    requires var mine := LoadUserProducts(s.products, e.user);
             i <= |mine| && (forall k :: 0 <= k < i ==> mine[k].id != e.id) && (i < |mine| ==> mine[i].id == e.id)
    ensures var mine := LoadUserProducts(s.products, e.user);
            if i == |mine| || e.edit.name == Some("") then Step(s, e) == s
            else
              exists q :: Applied(mine[i], q, e.edit) &&
                if e.edit.research || q.name != mine[i].name || q.brand != mine[i].brand then
                  Step(s, e) == s.(pending := s.pending[e.request := Request(e.user, mine[i := q], i)])
                else
                  && Step(s, e).pending == s.pending
                  && LoadUserProducts(Step(s, e).products, e.user) == mine[i := q.(updatedAt := e.at)]
                  && forall u :: u != e.user ==> LoadUserProducts(Step(s, e).products, u) == LoadUserProducts(s.products, u)
  {
    var mine := LoadUserProducts(s.products, e.user);
    LoadedIsOwn(s.products, e.user);
    IndexIsFirst(mine, e.user, e.id, i);
    hide LoadUserProducts;
    hide SaveUserProducts;
    hide OwnList;
    if i < |mine| && e.edit.name != Some("") {
      var q := Edited(mine[i], e.edit);
      assert Applied(mine[i], q, e.edit);
      var saved := mine[i := q][i := mine[i := q][i].(updatedAt := e.at)];
      assert saved == mine[i := q.(updatedAt := e.at)];
      SavedIsOwn(mine, e.user, i, q.(updatedAt := e.at));
      hide Edited;
      forall u
        ensures LoadUserProducts(SaveUserProducts(s.products, e.user, saved), u) ==
                if u == e.user then saved else LoadUserProducts(s.products, u)
      {
        LoadSaved(s.products, e.user, saved, u);
      }
    }
  }

  lemma {:induction false} IndexIsFirst(mine: seq<Product>, user: string, id: string, i: nat)
    requires OwnList(mine, user) && i <= |mine|
    requires (forall k :: 0 <= k < i ==> mine[k].id != id) && (i < |mine| ==> mine[i].id == id)
    ensures IndexOf(mine, user, id) == i
  {
    if i > 0 {
      IndexIsFirst(mine[1..], user, id, i - 1);
    }
  }

  lemma SavedIsOwn(mine: seq<Product>, user: string, i: nat, q: Product)
    requires OwnList(mine, user) && i < |mine| && q.userId == mine[i].userId
    ensures OwnList(mine[i := q], user)
  {
  }

  /** A delete takes the products with that id out of the user's own list, in order, and nothing else. */
  lemma DeleteTakesOnlyThat(s: Store, user: string, id: string)
    ensures var after := Step(s, Delete(user, id));
            && after.pending == s.pending
            && LoadUserProducts(after.products, user) == Without(LoadUserProducts(s.products, user), id)
            && (forall p :: p in LoadUserProducts(after.products, user) <==>
                  p in LoadUserProducts(s.products, user) && p.id != id)
            && (forall u :: u != user ==> LoadUserProducts(after.products, u) == LoadUserProducts(s.products, u))
  {
    var mine := LoadUserProducts(s.products, user);
    var next := Without(mine, id);
    LoadedIsOwn(s.products, user);
    WithoutIsOwn(mine, user, id);
    WithoutLength(mine, id);
    hide LoadUserProducts;
    hide SaveUserProducts;
    hide Without;
    forall u
      ensures LoadUserProducts(SaveUserProducts(s.products, user, next), u) ==
              if u == user then next else LoadUserProducts(s.products, u)
    {
      LoadSaved(s.products, user, next, u);
    }
    forall p ensures p in next <==> p in mine && p.id != id {
      WithoutKeeps(mine, id, p);
    }
  }

  lemma {:induction false} WithoutLength(ps: seq<Product>, id: string)
    ensures |Without(ps, id)| <= |ps| && (|Without(ps, id)| == |ps| ==> Without(ps, id) == ps)
  {
    if ps != [] {
      WithoutLength(ps[1..], id);
    }
  }

  lemma {:induction false} WithoutKeeps(ps: seq<Product>, id: string, p: Product)
    ensures p in Without(ps, id) <==> p in ps && p.id != id
  {
    if ps != [] {
      WithoutKeeps(ps[1..], id, p);
      assert ps == [ps[0]] + ps[1..];
    }
  }

  /**
   * The guarantee is the refresh's own: an ordinary edit that waits for a search still saves the snapshot
   * it started from, and so undoes a rename of another product saved in the meantime.
   */
  lemma StaleEditUndoesRename(a: Product, b: Product, newName: string, otherName: string, at: int)
    requires a.userId == b.userId && a.id != b.id
    requires newName != "" && otherName != "" && a.name != newName && b.name != otherName
    ensures var rename := Edit(Some(newName), None, None, None, false);
            var other := Edit(Some(otherName), None, None, None, false);
            var s := Run(Store([a, b], map[]),
                         [EditBegins(1, a.userId, a.id, rename, at), EditBegins(2, b.userId, b.id, other, at),
                          EditEnds(1, a.urls, at), EditEnds(2, b.urls, at)]);
            |s.products| == 2 && s.products[0] == a && s.products[1].name == otherName
  {
    var u := a.userId;
    var rename := Edit(Some(newName), None, None, None, false);
    var other := Edit(Some(otherName), None, None, None, false);
    var s0 := Store([a, b], map[]);
    var e1, e2 := EditBegins(1, u, a.id, rename, at), EditBegins(2, u, b.id, other, at);
    var e3, e4 := EditEnds(1, a.urls, at), EditEnds(2, b.urls, at);
    ListOfTwo(a, b);
    hide Run;
    hide QueryChanged;
    var r1, r2 := Request(u, [Edited(a, rename), b], 0), Request(u, [a, Edited(b, other)], 1);
    assert QueryChanged(a, rename) && QueryChanged(b, other) by {
      Renamed(a, newName);
      Renamed(b, otherName);
    }
    var s1 := Store([a, b], map[1 := r1]);
    var s2 := Store([a, b], map[1 := r1, 2 := r2]);
    assert Step(s0, e1) == s1 && Step(s1, e2) == s2 by {
      assert [a, b][0 := Edited(a, rename)] == [Edited(a, rename), b];
      assert [a, b][1 := Edited(b, other)] == [a, Edited(b, other)];
      assert s1.pending[2 := r2] == map[1 := r1, 2 := r2];
    }
    hide LoadUserProducts;
    hide IndexOf;
    var a', b' := Found(Edited(a, rename), a.urls, at), Found(Edited(b, other), b.urls, at);
    hide Found;
    hide Edited;
    SaveOfTwo(s2, 1, a, b, a.urls, at);
    var s3 := Step(s2, e3);
    assert r1.snapshot[0 := a'] == [a', b];
    hide Step;
    SaveOfTwo(s3, 2, a', b, b.urls, at);
    assert r2.snapshot[1 := b'] == [a, b'];
    RunOfFour(s0, e1, e2, e3, e4);
  }

  lemma Renamed(p: Product, name: string)
    requires name != p.name
    ensures QueryChanged(p, Edit(Some(name), None, None, None, false))
  {
  }

  lemma SaveOfTwo(s: Store, request: int, a: Product, b: Product, urls: seq<string>, at: int)
    requires s.products == [a, b] && a.userId == b.userId && a.id != b.id
    requires request in s.pending && s.pending[request].user == a.userId && s.pending[request].index < |s.pending[request].snapshot|
    ensures var r := s.pending[request];
            Step(s, EditEnds(request, urls, at)) ==
            Store(r.snapshot[r.index := Found(r.snapshot[r.index], urls, at)], s.pending - {request})
  {
    ListOfTwo(a, b);
  }

  lemma ListOfTwo(a: Product, b: Product)
    requires a.userId == b.userId && a.id != b.id
    ensures LoadUserProducts([a, b], a.userId) == [a, b] && OthersProducts([a, b], a.userId) == []
    ensures IndexOf([a, b], a.userId, a.id) == 0 && IndexOf([a, b], a.userId, b.id) == 1
  {
    assert [b][1..] == [];
    assert LoadUserProducts([b], a.userId) == [b] && OthersProducts([b], a.userId) == [];
    assert [a, b][1..] == [b];
  }

  lemma RunOfFour(s: Store, e1: Event, e2: Event, e3: Event, e4: Event)
    ensures Run(s, [e1, e2, e3, e4]) == Step(Step(Step(Step(s, e1), e2), e3), e4)
  {
    hide Step;
    RunSnoc(s, [], e1);
    RunSnoc(s, [e1], e2);
    RunSnoc(s, [e1, e2], e3);
    RunSnoc(s, [e1, e2, e3], e4);
    assert [] + [e1] == [e1] && [e1] + [e2] == [e1, e2] && [e1, e2] + [e3] == [e1, e2, e3];
    assert [e1, e2, e3] + [e4] == [e1, e2, e3, e4];
  }
}

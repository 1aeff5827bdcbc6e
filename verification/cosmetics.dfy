/** The cosmetics shop: outfits a child buys with `availablePoints` and wears
    one at a time. The `cosmetics` table lists the outfits, the
    `user_cosmetics` table records who owns which and whether it is worn.
 */
module Cosmetics {
  import opened Outcome
  import opened Users
  import Urls
  import Sorting
  import Text

  datatype Cosmetic = Cosmetic(id: nat, name: string, description: string, cost: int,
                               imageUrl: string, isActive: bool)

  /** One `user_cosmetics` row: `userName` owns the cosmetic `cosmeticId`. */
  datatype Ownership = Ownership(userName: string, cosmeticId: nat, isEquipped: bool)

  /** The three tables the shop reads and writes, with the next cosmetic id
      the database will hand out. */
  datatype Store = Store(users: UserTable, cosmetics: seq<Cosmetic>, nextId: nat, owned: seq<Ownership>)

  // ---------------------------------------------------------------- lookups

  predicate HasCosmetic(cosmetics: seq<Cosmetic>, id: nat) {
    exists i :: 0 <= i < |cosmetics| && cosmetics[i].id == id
  }

  /** `findOne({ where: { id } })` on the cosmetics: the first row with that id. */
  function FindCosmetic(cosmetics: seq<Cosmetic>, id: nat): (r: Option<Cosmetic>)
    ensures r.None? <==> !HasCosmetic(cosmetics, id)
    ensures r.Some? ==> r.value in cosmetics && r.value.id == id
  {
    if cosmetics == [] then None
    else if cosmetics[0].id == id then Some(cosmetics[0])
    else
      var r := FindCosmetic(cosmetics[1..], id);
      assert forall i :: 1 <= i < |cosmetics| ==> cosmetics[i] == cosmetics[1..][i - 1];
      r
  }

  predicate IsRowOf(o: Ownership, userName: string, id: nat) {
    o.userName == userName && o.cosmeticId == id
  }

  predicate Owns(owned: seq<Ownership>, userName: string, id: nat) {
    exists i :: 0 <= i < |owned| && IsRowOf(owned[i], userName, id)
  }

  /** The ids of the cosmetics the user owns, in row order (`ownedCosmeticIds`). */
  function OwnedIds(owned: seq<Ownership>, userName: string): seq<nat> {
    if owned == [] then []
    else (if owned[0].userName == userName then [owned[0].cosmeticId] else [])
         + OwnedIds(owned[1..], userName)
  }

  lemma {:induction false} OwnedIdsMeansOwns(owned: seq<Ownership>, userName: string, id: nat)
    ensures id in OwnedIds(owned, userName) <==> Owns(owned, userName, id)
  {
    if owned != [] {
      OwnedIdsMeansOwns(owned[1..], userName, id);
      if Owns(owned[1..], userName, id) {
        var i :| 0 <= i < |owned[1..]| && IsRowOf(owned[1..][i], userName, id);
        assert IsRowOf(owned[i + 1], userName, id);
      }
      if Owns(owned, userName, id) && !IsRowOf(owned[0], userName, id) {
        var i :| 0 <= i < |owned| && IsRowOf(owned[i], userName, id);
        assert IsRowOf(owned[1..][i - 1], userName, id);
      }
    }
  }

  /** `findOne({ where: { user, cosmetic } })`: the first row of that pair. */
  function IndexOfOwnership(owned: seq<Ownership>, userName: string, id: nat): (r: Option<nat>)
    ensures r.None? <==> !Owns(owned, userName, id)
    ensures r.Some? ==> r.value < |owned| && IsRowOf(owned[r.value], userName, id)
  {
    if owned == [] then None
    else if IsRowOf(owned[0], userName, id) then Some(0)
    else
      match IndexOfOwnership(owned[1..], userName, id)
      case None =>
        assert forall i :: 1 <= i < |owned| ==> owned[i] == owned[1..][i - 1];
        None
      case Some(k) => Some(k + 1)
  }

  predicate IsWornBy(o: Ownership, userName: string) {
    o.userName == userName && o.isEquipped
  }

  predicate Wears(owned: seq<Ownership>, userName: string) {
    exists i :: 0 <= i < |owned| && IsWornBy(owned[i], userName)
  }

  /** `findOne({ where: { user, isEquipped: true } })`. */
  function IndexOfWorn(owned: seq<Ownership>, userName: string): (r: Option<nat>)
    ensures r.None? <==> !Wears(owned, userName)
    ensures r.Some? ==> r.value < |owned| && IsWornBy(owned[r.value], userName)
  {
    if owned == [] then None
    else if IsWornBy(owned[0], userName) then Some(0)
    else
      match IndexOfWorn(owned[1..], userName)
      case None =>
        assert forall i :: 1 <= i < |owned| ==> owned[i] == owned[1..][i - 1];
        None
      case Some(k) => Some(k + 1)
  }

  /** `count({ where: { user } })`: how many rows the user has. */
  function OutfitCount(owned: seq<Ownership>, userName: string): nat {
    if owned == [] then 0
    else OutfitCount(owned[..|owned| - 1], userName)
         + (if owned[|owned| - 1].userName == userName then 1 else 0)
  }

  // ---------------------------------------------------------------- invariant

  /** Cosmetic ids grow along the table and stay below the next id. */
  predicate IdsAscending(store: Store) {
    && (forall i :: 0 <= i < |store.cosmetics| ==> store.cosmetics[i].id < store.nextId)
    && (forall i, j :: 0 <= i < j < |store.cosmetics| ==> store.cosmetics[i].id < store.cosmetics[j].id)
  }

  /** Every ownership row points at an existing user and cosmetic, as the
      table's foreign keys (with cascading deletes) guarantee. */
  predicate Linked(store: Store) {
    forall k :: 0 <= k < |store.owned| ==>
      store.owned[k].userName in store.users && HasCosmetic(store.cosmetics, store.owned[k].cosmeticId)
  }

  /** Nobody owns the same cosmetic twice. */
  predicate UniqueOwnership(owned: seq<Ownership>) {
    forall i, j :: 0 <= i < j < |owned| ==> !IsRowOf(owned[j], owned[i].userName, owned[i].cosmeticId)
  }

  /** Nobody wears two outfits at once. */
  predicate OneWorn(owned: seq<Ownership>) {
    forall i, j :: 0 <= i < j < |owned| && IsWornBy(owned[i], owned[i].userName) ==>
      !IsWornBy(owned[j], owned[i].userName)
  }

  predicate Valid(store: Store) {
    IdsAscending(store) && Linked(store) && UniqueOwnership(store.owned) && OneWorn(store.owned)
  }

  // ---------------------------------------------------------------- create

  /** `createCosmetic`: a new active cosmetic with the next id. */
  function CreateCosmetic(store: Store, name: string, description: string, cost: int, imageUrl: string)
    : (r: (Store, Cosmetic))
    ensures r.1.name == name && r.1.description == description && r.1.cost == cost
    ensures r.1.imageUrl == imageUrl && r.1.isActive
    ensures r.0.cosmetics == store.cosmetics + [r.1]
    ensures r.0.users == store.users && r.0.owned == store.owned
  {
    var c := Cosmetic(store.nextId, name, description, cost, imageUrl, true);
    (store.(cosmetics := store.cosmetics + [c], nextId := store.nextId + 1), c)
  }

  /** A created cosmetic keeps the store valid, gets an id no other cosmetic
      had, and is what a lookup by that id finds. */
  lemma CreateCosmeticKeepsValid(store: Store, name: string, description: string, cost: int, imageUrl: string)
    requires Valid(store)
    ensures var (store', c) := CreateCosmetic(store, name, description, cost, imageUrl);
      && Valid(store')
      && !HasCosmetic(store.cosmetics, c.id)
      && FindCosmetic(store'.cosmetics, c.id) == Some(c)
      && forall id :: HasCosmetic(store.cosmetics, id) ==>
           FindCosmetic(store'.cosmetics, id) == FindCosmetic(store.cosmetics, id)
  {
    var (store', c) := CreateCosmetic(store, name, description, cost, imageUrl);
    assert forall i :: 0 <= i < |store.cosmetics| ==> store'.cosmetics[i] == store.cosmetics[i];
    forall k | 0 <= k < |store'.owned|
      ensures HasCosmetic(store'.cosmetics, store'.owned[k].cosmeticId)
    {
      var i :| 0 <= i < |store.cosmetics| && store.cosmetics[i].id == store.owned[k].cosmeticId;
      assert store'.cosmetics[i].id == store.owned[k].cosmeticId;
    }
    FindAfterAppend(store.cosmetics, c);
  }

  /** Appending a cosmetic with an unused id leaves every earlier lookup as it
      was and makes the new one findable. */
  lemma {:induction false} FindAfterAppend(cosmetics: seq<Cosmetic>, c: Cosmetic)
    requires !HasCosmetic(cosmetics, c.id)
    ensures FindCosmetic(cosmetics + [c], c.id) == Some(c)
    ensures forall id :: HasCosmetic(cosmetics, id) ==>
      FindCosmetic(cosmetics + [c], id) == FindCosmetic(cosmetics, id)
  {
    if cosmetics != [] {
      assert (cosmetics + [c])[1..] == cosmetics[1..] + [c];
      forall i | 0 <= i < |cosmetics[1..]| ensures cosmetics[1..][i].id != c.id {
        assert cosmetics[1..][i] == cosmetics[i + 1];
      }
      FindAfterAppend(cosmetics[1..], c);
      forall id | HasCosmetic(cosmetics, id) && cosmetics[0].id != id
        ensures HasCosmetic(cosmetics[1..], id)
      {
        var i :| 0 <= i < |cosmetics| && cosmetics[i].id == id;
        assert cosmetics[1..][i - 1].id == id;
      }
    }
  }

  // ---------------------------------------------------------------- sample outfits

  /** One entry of the sample catalogue. */
  datatype Outfit = Outfit(name: string, description: string, cost: int, imageUrl: string)

  const SampleOutfits: seq<Outfit> := [
    Outfit("Outfit Básico", "El conjunto por defecto para todos los niños", 0, "/images/outfits/default.png"),
    Outfit("Outfit Casual", "Ropa cómoda para el día a día", 100, "/images/outfits/casual.png"),
    Outfit("Traje de Superhéroe", "¡Conviértete en un superhéroe!", 200, "/images/outfits/superhero.png"),
    Outfit("Traje de Astronauta", "Explora el espacio con este traje espacial", 300, "/images/outfits/astronaut.png"),
    Outfit("Vestido de Princesa", "Un hermoso vestido de princesa", 250, "/images/outfits/princess.png"),
    Outfit("Conjunto Deportivo", "Perfecto para hacer ejercicio", 150, "/images/outfits/sports.png")
  ]

  predicate HasName(cosmetics: seq<Cosmetic>, name: string) {
    exists i :: 0 <= i < |cosmetics| && cosmetics[i].name == name
  }

  /** Creates, in order, each outfit whose name no cosmetic carries yet; an
      outfit created earlier in the same run counts as existing. Returns the
      store and the cosmetics created. */
  function AddMissing(store: Store, outfits: seq<Outfit>): (Store, seq<Cosmetic>)
    decreases |outfits|
  {
    if outfits == [] then (store, [])
    else
      var o := outfits[0];
      if HasName(store.cosmetics, o.name) then AddMissing(store, outfits[1..])
      else
        var store1 := CreateCosmetic(store, o.name, o.description, o.cost, o.imageUrl).0;
        var c := CreateCosmetic(store, o.name, o.description, o.cost, o.imageUrl).1;
        var (store2, rest) := AddMissing(store1, outfits[1..]);
        (store2, [c] + rest)
  }

  lemma HasNameAppend(cosmetics: seq<Cosmetic>, extra: seq<Cosmetic>, name: string)
    requires HasName(cosmetics, name)
    ensures HasName(cosmetics + extra, name)
  {
    var i :| 0 <= i < |cosmetics| && cosmetics[i].name == name;
    assert (cosmetics + extra)[i].name == name;
  }

  lemma NoNameBefore(cosmetics: seq<Cosmetic>, extra: seq<Cosmetic>, name: string)
    requires !HasName(cosmetics + extra, name)
    ensures !HasName(cosmetics, name)
  {
    forall i | 0 <= i < |cosmetics| ensures cosmetics[i].name != name {
      assert (cosmetics + extra)[i] == cosmetics[i];
    }
  }

  /** A run only appends to the catalogue, at most one row per outfit. */
  lemma {:induction false} AddMissingAppends(store: Store, outfits: seq<Outfit>)
    ensures var (store', created) := AddMissing(store, outfits);
      && store'.cosmetics == store.cosmetics + created
      && store'.users == store.users && store'.owned == store.owned
      && |created| <= |outfits|
    decreases |outfits|
  {
    if outfits != [] {
      var o := outfits[0];
      if HasName(store.cosmetics, o.name) {
        AddMissingAppends(store, outfits[1..]);
      } else {
        var store1 := CreateCosmetic(store, o.name, o.description, o.cost, o.imageUrl).0;
        var c := CreateCosmetic(store, o.name, o.description, o.cost, o.imageUrl).1;
        AddMissingAppends(store1, outfits[1..]);
        var rest := AddMissing(store1, outfits[1..]).1;
        assert store.cosmetics + [c] + rest == store.cosmetics + ([c] + rest);
      }
    }
  }

  /** Each created cosmetic is an active copy of one of the outfits, under a
      name no cosmetic carried before the run. */
  lemma {:induction false} AddMissingCreatesMissing(store: Store, outfits: seq<Outfit>)
    ensures forall x :: x in AddMissing(store, outfits).1 ==>
      && !HasName(store.cosmetics, x.name)
      && x.isActive
      && Outfit(x.name, x.description, x.cost, x.imageUrl) in outfits
    decreases |outfits|
  {
    if outfits != [] {
      var o := outfits[0];
      assert forall p :: p in outfits[1..] ==> p in outfits;
      if HasName(store.cosmetics, o.name) {
        AddMissingCreatesMissing(store, outfits[1..]);
      } else {
        var store1 := CreateCosmetic(store, o.name, o.description, o.cost, o.imageUrl).0;
        var c := CreateCosmetic(store, o.name, o.description, o.cost, o.imageUrl).1;
        AddMissingCreatesMissing(store1, outfits[1..]);
        var rest := AddMissing(store1, outfits[1..]).1;
        assert AddMissing(store, outfits).1 == [c] + rest;
        forall x | x in rest ensures !HasName(store.cosmetics, x.name) {
          NoNameBefore(store.cosmetics, [c], x.name);
        }
      }
    }
  }

  /** After a run every outfit's name is in the catalogue. */
  lemma {:induction false} AddMissingCovers(store: Store, outfits: seq<Outfit>)
    ensures forall o :: o in outfits ==> HasName(AddMissing(store, outfits).0.cosmetics, o.name)
    decreases |outfits|
  {
    if outfits != [] {
      var o := outfits[0];
      var store' := AddMissing(store, outfits).0;
      assert outfits == [o] + outfits[1..];
      if HasName(store.cosmetics, o.name) {
        AddMissingCovers(store, outfits[1..]);
        AddMissingAppends(store, outfits[1..]);
        HasNameAppend(store.cosmetics, AddMissing(store, outfits[1..]).1, o.name);
      } else {
        var store1 := CreateCosmetic(store, o.name, o.description, o.cost, o.imageUrl).0;
        var c := CreateCosmetic(store, o.name, o.description, o.cost, o.imageUrl).1;
        AddMissingCovers(store1, outfits[1..]);
        AddMissingAppends(store1, outfits[1..]);
        assert store1.cosmetics[|store.cosmetics|].name == o.name;
        HasNameAppend(store1.cosmetics, AddMissing(store1, outfits[1..]).1, o.name);
      }
    }
  }

  /** When every outfit's name is already taken, a run creates nothing and
      leaves the store as it was. */
  lemma {:induction false} AddMissingNothingNew(store: Store, outfits: seq<Outfit>)
    requires forall o :: o in outfits ==> HasName(store.cosmetics, o.name)
    ensures AddMissing(store, outfits) == (store, [])
    decreases |outfits|
  {
    if outfits != [] {
      assert outfits[0] in outfits;
      assert forall p :: p in outfits[1..] ==> p in outfits;
      AddMissingNothingNew(store, outfits[1..]);
    }
  }

  /** Running the same list a second time creates nothing. */
  lemma AddMissingIdempotent(store: Store, outfits: seq<Outfit>)
    ensures var store' := AddMissing(store, outfits).0;
      AddMissing(store', outfits) == (store', [])
  {
    AddMissingCovers(store, outfits);
    AddMissingNothingNew(AddMissing(store, outfits).0, outfits);
  }

  /** One line of the reply: the created cosmetic's id, name and cost. */
  datatype OutfitSummary = OutfitSummary(id: nat, name: string, cost: int)

  datatype SampleReport = SampleReport(message: string, outfits: seq<OutfitSummary>)

  function Summaries(created: seq<Cosmetic>): (r: seq<OutfitSummary>)
    ensures |r| == |created|
    ensures forall k :: 0 <= k < |created| ==>
      r[k] == OutfitSummary(created[k].id, created[k].name, created[k].cost)
  {
    if created == [] then []
    else [OutfitSummary(created[0].id, created[0].name, created[0].cost)] + Summaries(created[1..])
  }

  /** `createSampleOutfits`: adds the sample outfits that are missing and
      reports how many it created. */
  function CreateSampleOutfits(store: Store): (r: (Store, SampleReport))
    ensures var (store', report) := r;
      && report.message == "Created " + Text.NatToString(|report.outfits|) + " sample outfits"
      && |report.outfits| <= |SampleOutfits|
      && store.cosmetics <= store'.cosmetics
      && |store'.cosmetics| == |store.cosmetics| + |report.outfits|
      && store'.users == store.users && store'.owned == store.owned
  {
    AddMissingAppends(store, SampleOutfits);
    var (store', created) := AddMissing(store, SampleOutfits);
    (store', SampleReport("Created " + Text.NatToString(|created|) + " sample outfits", Summaries(created)))
  }

  /** The second run of `createSampleOutfits` reports no outfit and changes
      nothing. */
  lemma CreateSampleOutfitsIdempotent(store: Store)
    ensures var store' := CreateSampleOutfits(store).0;
      && CreateSampleOutfits(store').0 == store'
      && CreateSampleOutfits(store').1.outfits == []
  {
    AddMissingIdempotent(store, SampleOutfits);
  }

  /** A run creates at most the six samples and keeps the store valid. */
  lemma CreateSampleOutfitsKeepsValid(store: Store)
    requires Valid(store)
    ensures var (store', report) := CreateSampleOutfits(store);
      Valid(store') && |report.outfits| <= 6
  {
    AddMissingKeepsValid(store, SampleOutfits);
    AddMissingAppends(store, SampleOutfits);
  }

  lemma {:induction false} AddMissingKeepsValid(store: Store, outfits: seq<Outfit>)
    requires Valid(store)
    ensures Valid(AddMissing(store, outfits).0)
    decreases |outfits|
  {
    if outfits != [] {
      var o := outfits[0];
      if HasName(store.cosmetics, o.name) {
        AddMissingKeepsValid(store, outfits[1..]);
      } else {
        CreateCosmeticKeepsValid(store, o.name, o.description, o.cost, o.imageUrl);
        var store1 := CreateCosmetic(store, o.name, o.description, o.cost, o.imageUrl).0;
        AddMissingKeepsValid(store1, outfits[1..]);
      }
    }
  }

  // ---------------------------------------------------------------- shop

  datatype ShopItem = ShopItem(id: nat, name: string, description: string, cost: int,
                               imageUrl: string, owned: bool, canAfford: bool)

  /** `find({ where: { isActive: true } })`, in table order. */
  function ActiveOnly(cosmetics: seq<Cosmetic>): (r: seq<Cosmetic>)
    ensures forall c :: c in r <==> c in cosmetics && c.isActive
  {
    if cosmetics == [] then []
    else (if cosmetics[0].isActive then [cosmetics[0]] else []) + ActiveOnly(cosmetics[1..])
  }

  function CostOf(c: Cosmetic): int {
    c.cost
  }

  /** One shop line for `c`, seen by a user owning `ownedIds` with `available`
      points to spend. */
  function ItemOf(env: string, ownedIds: seq<nat>, available: int, c: Cosmetic): ShopItem {
    ShopItem(c.id, c.name, c.description, c.cost, Urls.BuildImageUrl(env, c.imageUrl),
             c.id in ownedIds, available >= c.cost && c.id !in ownedIds)
  }

  function Items(env: string, ownedIds: seq<nat>, available: int, cs: seq<Cosmetic>): (r: seq<ShopItem>)
    ensures |r| == |cs|
    ensures forall k :: 0 <= k < |cs| ==> r[k] == ItemOf(env, ownedIds, available, cs[k])
  {
    if cs == [] then [] else [ItemOf(env, ownedIds, available, cs[0])] + Items(env, ownedIds, available, cs[1..])
  }

  /** `getShop`: the active cosmetics by ascending cost, each flagged with
      whether the user owns it and can buy it. */
  function GetShop(store: Store, env: string, userName: string): (r: Result<seq<ShopItem>>)
    ensures r.Err? <==> userName !in store.users
    ensures r.Err? ==> r.error == ChildNotFound
  {
    if userName !in store.users then Err(ChildNotFound)
    else
      var shown := Sorting.SortBy(ActiveOnly(store.cosmetics), CostOf);
      Ok(Items(env, OwnedIds(store.owned, userName), store.users[userName].availablePoints, shown))
  }

  /** The shop line shows the cosmetic's own fields and its full image URL. */
  predicate Shows(item: ShopItem, env: string, c: Cosmetic) {
    && item.id == c.id && item.name == c.name && item.description == c.description
    && item.cost == c.cost && item.imageUrl == Urls.BuildImageUrl(env, c.imageUrl)
  }

  lemma ItemsShow(env: string, ownedIds: seq<nat>, available: int, cs: seq<Cosmetic>)
    ensures var items := Items(env, ownedIds, available, cs);
      && (forall k :: 0 <= k < |items| ==> Shows(items[k], env, cs[k]))
      && (forall c :: c in cs ==> exists k :: 0 <= k < |items| && Shows(items[k], env, c))
  {
    var items := Items(env, ownedIds, available, cs);
    forall c | c in cs ensures exists k :: 0 <= k < |items| && Shows(items[k], env, c) {
      var k :| 0 <= k < |cs| && cs[k] == c;
      assert Shows(items[k], env, cs[k]);
    }
  }

  /** The shop has one line per active cosmetic, and every active cosmetic
      has its line. */
  lemma GetShopListsActive(store: Store, env: string, userName: string)
    requires userName in store.users
    ensures var items := GetShop(store, env, userName).value;
      && |items| == |ActiveOnly(store.cosmetics)|
      && forall c :: c in store.cosmetics && c.isActive ==>
           exists k :: 0 <= k < |items| && Shows(items[k], env, c)
  {
    var active := ActiveOnly(store.cosmetics);
    var shown := Sorting.SortBy(active, CostOf);
    Sorting.SortByCorrect(active, CostOf);
    Sorting.SameMembers(active, shown);
    ItemsShow(env, OwnedIds(store.owned, userName), store.users[userName].availablePoints, shown);
  }

  /** Every line of the shop shows an active cosmetic. */
  lemma GetShopOnlyActive(store: Store, env: string, userName: string)
    requires userName in store.users
    ensures var items := GetShop(store, env, userName).value;
      forall k :: 0 <= k < |items| ==> exists c :: c in store.cosmetics && c.isActive && Shows(items[k], env, c)
  {
    var active := ActiveOnly(store.cosmetics);
    var shown := Sorting.SortBy(active, CostOf);
    var items := GetShop(store, env, userName).value;
    Sorting.SortByCorrect(active, CostOf);
    Sorting.SameMembers(active, shown);
    ItemsShow(env, OwnedIds(store.owned, userName), store.users[userName].availablePoints, shown);
    forall k | 0 <= k < |items| ensures exists c :: c in store.cosmetics && c.isActive && Shows(items[k], env, c) {
      assert shown[k] in active;
      assert Shows(items[k], env, shown[k]);
    }
  }

  /** Cheapest first, as `order: { cost: 'ASC' }`. */
  lemma GetShopByCost(store: Store, env: string, userName: string)
    requires userName in store.users
    ensures var items := GetShop(store, env, userName).value;
      forall i, j :: 0 <= i < j < |items| ==> items[i].cost <= items[j].cost
  {
    var active := ActiveOnly(store.cosmetics);
    var shown := Sorting.SortBy(active, CostOf);
    var items := GetShop(store, env, userName).value;
    Sorting.SortByCorrect(active, CostOf);
    forall i, j | 0 <= i < j < |items| ensures items[i].cost <= items[j].cost {
      assert CostOf(shown[i]) <= CostOf(shown[j]);
    }
  }

  /** `owned` is true exactly for the user's cosmetics, and `canAfford`
      exactly for those the user does not own and has the points for. */
  lemma GetShopFlags(store: Store, env: string, userName: string)
    requires userName in store.users
    ensures var items := GetShop(store, env, userName).value;
      var available := store.users[userName].availablePoints;
      forall k :: 0 <= k < |items| ==>
        && (items[k].owned <==> Owns(store.owned, userName, items[k].id))
        && (items[k].canAfford <==> available >= items[k].cost && !Owns(store.owned, userName, items[k].id))
  {
    var items := GetShop(store, env, userName).value;
    forall k | 0 <= k < |items|
      ensures items[k].owned <==> Owns(store.owned, userName, items[k].id)
    {
      OwnedIdsMeansOwns(store.owned, userName, items[k].id);
    }
  }


  // ---------------------------------------------------------------- buy

  datatype Purchase = Purchase(message: string, remainingPoints: int, outfit: string)

  /** `buyCosmetic`: checks, in order, that the user and the cosmetic exist,
      that the user does not own it yet and has the points, then spends the
      points and records an unworn ownership. */
  function Buy(store: Store, userName: string, id: nat): (r: Result<(Store, Purchase)>)
    ensures userName !in store.users ==> r == Err(ChildNotFound)
    ensures userName in store.users && !HasCosmetic(store.cosmetics, id) ==> r == Err(CosmeticNotFound)
    ensures userName in store.users && HasCosmetic(store.cosmetics, id) && Owns(store.owned, userName, id) ==>
      r == Err(AlreadyOwned)
    ensures (userName in store.users && HasCosmetic(store.cosmetics, id) && !Owns(store.owned, userName, id)) ==>
      var c := FindCosmetic(store.cosmetics, id).value;
      var user := store.users[userName];
      (user.availablePoints < c.cost ==> r == Err(NeedMorePoints(c.cost - user.availablePoints)))
    ensures r.Ok? ==>
      var (store', purchase) := r.value;
      var c := FindCosmetic(store.cosmetics, id).value;
      var user := store.users[userName];
      && userName in store.users && HasCosmetic(store.cosmetics, id) && !Owns(store.owned, userName, id)
      && c.cost <= user.availablePoints
      && store'.users.Keys == store.users.Keys
      && store'.users[userName] == User(user.totalPoints, user.availablePoints - c.cost)
      && store'.users[userName].availablePoints >= 0
      && (forall other :: other in store.users && other != userName ==> store'.users[other] == store.users[other])
      && store'.cosmetics == store.cosmetics && store'.nextId == store.nextId
      && store'.owned == store.owned + [Ownership(userName, id, false)]
      && purchase.remainingPoints == store'.users[userName].availablePoints
      && purchase.outfit == c.name
  {
    if userName !in store.users then Err(ChildNotFound)
    else
      match FindCosmetic(store.cosmetics, id)
      case None => Err(CosmeticNotFound)
      case Some(c) =>
        var user := store.users[userName];
        if IndexOfOwnership(store.owned, userName, id).Some? then Err(AlreadyOwned)
        else if user.availablePoints < c.cost then Err(NeedMorePoints(c.cost - user.availablePoints))
        else
          var user' := user.(availablePoints := user.availablePoints - c.cost);
          var store' := store.(users := store.users[userName := user'],
                               owned := store.owned + [Ownership(userName, id, false)]);
          var message := "¡Compraste " + c.name + " por " + Text.IntToString(c.cost) + " puntos!";
          Ok((store', Purchase(message, user'.availablePoints, c.name)))
  }

  /** A purchase keeps the store valid. */
  lemma BuyKeepsValid(store: Store, userName: string, id: nat)
    requires Valid(store)
    ensures var r := Buy(store, userName, id); r.Ok? ==> Valid(r.value.0)
  {
    var r := Buy(store, userName, id);
    if r.Ok? {
      var owned' := r.value.0.owned;
      var n := |store.owned|;
      assert owned'[n] == Ownership(userName, id, false);
      assert forall k :: 0 <= k < n ==> owned'[k] == store.owned[k];
      forall i | 0 <= i < n ensures !IsRowOf(store.owned[i], userName, id) {
      }
    }
  }

  /** After a purchase the user owns the cosmetic, has one more outfit, and
      buying it again is refused. */
  lemma BuyRecordsOwnership(store: Store, userName: string, id: nat)
    ensures var r := Buy(store, userName, id);
      r.Ok? ==>
        var store' := r.value.0;
        && Owns(store'.owned, userName, id)
        && OutfitCount(store'.owned, userName) == OutfitCount(store.owned, userName) + 1
        && Buy(store', userName, id) == Err(AlreadyOwned)
  {
    var r := Buy(store, userName, id);
    if r.Ok? {
      var owned' := r.value.0.owned;
      var n := |store.owned|;
      assert IsRowOf(owned'[n], userName, id);
      assert owned'[..n] == store.owned;
    }
  }

  /** Buying never changes `totalPoints`, so with costs that are not negative
      it keeps every balance between 0 and the points ever earned. */
  lemma BuyKeepsBalances(store: Store, userName: string, id: nat)
    requires BalancesOk(store.users)
    requires forall k :: 0 <= k < |store.cosmetics| ==> store.cosmetics[k].cost >= 0
    ensures var r := Buy(store, userName, id); r.Ok? ==> BalancesOk(r.value.0.users)
  {
  }

  // ---------------------------------------------------------------- equip

  datatype Equipped = Equipped(message: string, equippedOutfit: string)

  /** The user's rows after `update({ user }, { isEquipped: false })` and then
      setting row `i` worn; rows of other users are untouched. */
  function Rewear(owned: seq<Ownership>, userName: string, i: nat): (r: seq<Ownership>)
    ensures |r| == |owned|
    ensures forall k :: 0 <= k < |owned| ==>
      r[k] == if owned[k].userName == userName then owned[k].(isEquipped := k == i) else owned[k]
  {
    seq(|owned|, k requires 0 <= k < |owned| =>
      if owned[k].userName == userName then owned[k].(isEquipped := k == i) else owned[k])
  }

  /** `equipOutfit`: fails unless the user exists and owns the cosmetic;
      otherwise that outfit becomes the only one the user wears. */
  function Equip(store: Store, userName: string, id: nat): (r: Result<(Store, Equipped)>)
    requires Linked(store)
    ensures userName !in store.users ==> r == Err(ChildNotFound)
    ensures userName in store.users && !Owns(store.owned, userName, id) ==> r == Err(NotOwned)
    ensures r.Ok? <==> userName in store.users && Owns(store.owned, userName, id)
    ensures r.Ok? ==>
      var (store', equipped) := r.value;
      && store'.users == store.users && store'.cosmetics == store.cosmetics && store'.nextId == store.nextId
      && Linked(store')
      && |store'.owned| == |store.owned|
      && (forall k :: 0 <= k < |store.owned| ==>
            store'.owned[k].(isEquipped := store.owned[k].isEquipped) == store.owned[k])
      && (forall k :: 0 <= k < |store.owned| && store.owned[k].userName != userName ==>
            store'.owned[k] == store.owned[k])
      && (exists i :: 0 <= i < |store'.owned| && IsRowOf(store'.owned[i], userName, id)
            && store'.owned[i].isEquipped
            && forall k :: 0 <= k < |store'.owned| && k != i && store'.owned[k].userName == userName ==>
                 !store'.owned[k].isEquipped)
      && equipped.equippedOutfit == FindCosmetic(store.cosmetics, id).value.name
  {
    if userName !in store.users then Err(ChildNotFound)
    else
      match IndexOfOwnership(store.owned, userName, id)
      case None => Err(NotOwned)
      case Some(i) =>
        assert HasCosmetic(store.cosmetics, store.owned[i].cosmeticId);
        var name := FindCosmetic(store.cosmetics, id).value.name;
        var store' := store.(owned := Rewear(store.owned, userName, i));
        assert IsRowOf(store'.owned[i], userName, id);
        Ok((store', Equipped("¡Ahora llevas puesto " + name + "!", name)))
  }

  /** Wearing an outfit keeps the store valid. */
  lemma EquipKeepsValid(store: Store, userName: string, id: nat)
    requires Valid(store)
    ensures var r := Equip(store, userName, id); r.Ok? ==> Valid(r.value.0)
  {
    var r := Equip(store, userName, id);
    if r.Ok? {
      var owned, owned' := store.owned, r.value.0.owned;
      assert forall k :: 0 <= k < |owned| ==>
        owned'[k].userName == owned[k].userName && owned'[k].cosmeticId == owned[k].cosmeticId;
    }
  }

  // ---------------------------------------------------------------- profile

  datatype OutfitView = OutfitView(name: string, imageUrl: string)

  datatype Profile = Profile(name: string, totalPoints: int, availablePoints: int,
                             totalOutfits: nat, currentOutfit: OutfitView)

  const DefaultOutfitName := "Outfit Básico"
  const DefaultOutfitImage := "/images/outfits/default.png"

  /** `getChildProfile`: the balances, the number of outfits owned and the
      outfit worn, the basic one when none is. */
  function ChildProfile(store: Store, env: string, userName: string): (r: Result<Profile>)
    requires Linked(store)
    ensures r.Err? <==> userName !in store.users
    ensures r.Err? ==> r.error == ChildNotFound
    ensures r.Ok? ==>
      && r.value.name == userName
      && r.value.totalPoints == store.users[userName].totalPoints
      && r.value.availablePoints == store.users[userName].availablePoints
      && r.value.totalOutfits == OutfitCount(store.owned, userName)
      && (!Wears(store.owned, userName) ==>
            r.value.currentOutfit == OutfitView(DefaultOutfitName, Urls.BuildImageUrl(env, DefaultOutfitImage)))
      && (Wears(store.owned, userName) ==>
            exists k :: 0 <= k < |store.owned| && IsWornBy(store.owned[k], userName)
              && var c := FindCosmetic(store.cosmetics, store.owned[k].cosmeticId);
                 c.Some? && r.value.currentOutfit == OutfitView(c.value.name, Urls.BuildImageUrl(env, c.value.imageUrl)))
  {
    if userName !in store.users then Err(ChildNotFound)
    else
      var user := store.users[userName];
      var current :=
        match IndexOfWorn(store.owned, userName)
        case None => OutfitView(DefaultOutfitName, Urls.BuildImageUrl(env, DefaultOutfitImage))
        case Some(k) =>
          assert HasCosmetic(store.cosmetics, store.owned[k].cosmeticId);
          var c := FindCosmetic(store.cosmetics, store.owned[k].cosmeticId).value;
          OutfitView(c.name, Urls.BuildImageUrl(env, c.imageUrl));
      Ok(Profile(userName, user.totalPoints, user.availablePoints, OutfitCount(store.owned, userName), current))
  }

  /** After wearing an outfit the profile shows it, under the name the equip
      reply gave. */
  lemma EquipThenProfile(store: Store, env: string, userName: string, id: nat)
    requires Valid(store)
    ensures var r := Equip(store, userName, id);
      r.Ok? ==>
        var c := FindCosmetic(store.cosmetics, id).value;
        var p := ChildProfile(r.value.0, env, userName);
        && p.Ok?
        && p.value.currentOutfit == OutfitView(c.name, Urls.BuildImageUrl(env, c.imageUrl))
        && p.value.currentOutfit.name == r.value.1.equippedOutfit
  {
    var r := Equip(store, userName, id);
    if r.Ok? {
      EquipKeepsValid(store, userName, id);
      var owned' := r.value.0.owned;
      var i :| 0 <= i < |owned'| && IsRowOf(owned'[i], userName, id) && owned'[i].isEquipped
            && forall k :: 0 <= k < |owned'| && k != i && owned'[k].userName == userName ==>
                 !owned'[k].isEquipped;
      assert IsWornBy(owned'[i], userName);
      var k := IndexOfWorn(owned', userName).value;
      assert k == i;
    }
  }
}

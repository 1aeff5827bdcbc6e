/** The level catalogue: levels identified by a database id and by a
    `levelNumber` that the game looks levels up by, each with its words.
 */
module Levels {
  import opened Outcome
  import Urls
  import Sorting

  datatype Word = Word(id: nat, text: string, imageUrl: string)

  datatype Level = Level(id: nat, levelNumber: int, description: string, words: seq<Word>)

  /** The `levels` table in id order, with the next id the database will hand
      out. */
  datatype Catalogue = Catalogue(levels: seq<Level>, nextId: nat)

  predicate HasNumber(levels: seq<Level>, n: int) {
    exists i :: 0 <= i < |levels| && levels[i].levelNumber == n
  }

  predicate HasId(levels: seq<Level>, id: nat) {
    exists i :: 0 <= i < |levels| && levels[i].id == id
  }

  /** Position of the first level numbered `n`, as `findOne({ where: { levelNumber } })`. */
  function IndexOfNumber(levels: seq<Level>, n: int): (r: Option<nat>)
    ensures r.None? <==> !HasNumber(levels, n)
    ensures r.Some? ==> r.value < |levels| && levels[r.value].levelNumber == n
    ensures r.Some? ==> forall j :: 0 <= j < r.value ==> levels[j].levelNumber != n
  {
    if levels == [] then None
    else if levels[0].levelNumber == n then Some(0)
    else
      match IndexOfNumber(levels[1..], n)
      case None =>
        assert forall i :: 1 <= i < |levels| ==> levels[i] == levels[1..][i - 1];
        None
      case Some(k) => Some(k + 1)
  }

  /** Position of the first level with database id `id`, as `findOne({ where: { id } })`. */
  function IndexOfId(levels: seq<Level>, id: nat): (r: Option<nat>)
    ensures r.None? <==> !HasId(levels, id)
    ensures r.Some? ==> r.value < |levels| && levels[r.value].id == id
    ensures r.Some? ==> forall j :: 0 <= j < r.value ==> levels[j].id != id
  {
    if levels == [] then None
    else if levels[0].id == id then Some(0)
    else
      match IndexOfId(levels[1..], id)
      case None =>
        assert forall i :: 1 <= i < |levels| ==> levels[i] == levels[1..][i - 1];
        None
      case Some(k) => Some(k + 1)
  }

  function FindByNumber(levels: seq<Level>, n: int): (r: Option<Level>)
    ensures r.None? <==> !HasNumber(levels, n)
    ensures r.Some? ==> r.value in levels && r.value.levelNumber == n
  {
    match IndexOfNumber(levels, n)
    case None => None
    case Some(i) => Some(levels[i])
  }

  /** No two levels share a number, so looking a level up by number is
      unambiguous. */
  predicate UniqueNumbers(levels: seq<Level>) {
    forall i, j :: 0 <= i < j < |levels| ==> levels[i].levelNumber != levels[j].levelNumber
  }

  /** Ids grow along the table and stay below the next id to be handed out. */
  predicate IdsAscending(cat: Catalogue) {
    && (forall i :: 0 <= i < |cat.levels| ==> cat.levels[i].id < cat.nextId)
    && (forall i, j :: 0 <= i < j < |cat.levels| ==> cat.levels[i].id < cat.levels[j].id)
  }

  predicate Valid(cat: Catalogue) {
    UniqueNumbers(cat.levels) && IdsAscending(cat)
  }

  /** With unique numbers, the level found by number is the one level that
      carries it. */
  lemma FindByNumberUnique(levels: seq<Level>, i: nat)
    requires UniqueNumbers(levels) && i < |levels|
    ensures FindByNumber(levels, levels[i].levelNumber) == Some(levels[i])
  {
  }

  // ---------------------------------------------------------------- create

  /** Adds a level with no words, unless its number is taken. */
  function Create(cat: Catalogue, levelNumber: int, description: string): (r: Result<(Catalogue, Level)>)
    ensures r.Err? <==> HasNumber(cat.levels, levelNumber)
    ensures r.Err? ==> r.error == DuplicateLevelNumber
    ensures r.Ok? ==>
      var (cat', level) := r.value;
      && level == Level(cat.nextId, levelNumber, description, [])
      && cat'.levels == cat.levels + [level]
      && cat'.nextId == cat.nextId + 1
  {
    if IndexOfNumber(cat.levels, levelNumber).Some? then Err(DuplicateLevelNumber)
    else
      var level := Level(cat.nextId, levelNumber, description, []);
      Ok((Catalogue(cat.levels + [level], cat.nextId + 1), level))
  }

  /** Creating a level keeps the catalogue valid, and the new level is what a
      lookup by its number finds. */
  lemma CreateKeepsValid(cat: Catalogue, levelNumber: int, description: string)
    requires Valid(cat)
    ensures var r := Create(cat, levelNumber, description);
      r.Ok? ==> Valid(r.value.0) && FindByNumber(r.value.0.levels, levelNumber) == Some(r.value.1)
  {
    var r := Create(cat, levelNumber, description);
    if r.Ok? {
      var levels' := r.value.0.levels;
      assert forall i :: 0 <= i < |cat.levels| ==> levels'[i] == cat.levels[i];
      FindByNumberUnique(levels', |cat.levels|);
    }
  }

  // ---------------------------------------------------------------- find

  /** The words with their image paths turned into full URLs. */
  function WithImageUrls(env: string, words: seq<Word>): (r: seq<Word>)
    ensures |r| == |words|
    ensures forall i :: 0 <= i < |words| ==>
      r[i] == words[i].(imageUrl := Urls.BuildImageUrl(env, words[i].imageUrl))
  {
    if words == [] then []
    else [words[0].(imageUrl := Urls.BuildImageUrl(env, words[0].imageUrl))] + WithImageUrls(env, words[1..])
  }

  function Presented(env: string, level: Level): Level {
    level.(words := WithImageUrls(env, level.words))
  }

  /** `findLevel`: the level numbered `n` with full image URLs, or an error when
      there is none. */
  function FindLevel(cat: Catalogue, env: string, n: int): (r: Result<Level>)
    ensures r.Err? <==> !HasNumber(cat.levels, n)
    ensures r.Err? ==> r.error == LevelNotFound
    ensures r.Ok? ==> exists i :: 0 <= i < |cat.levels| && cat.levels[i].levelNumber == n
                                  && r.value == Presented(env, cat.levels[i])
  {
    match IndexOfNumber(cat.levels, n)
    case None => Err(LevelNotFound)
    case Some(i) => Ok(Presented(env, cat.levels[i]))
  }

  function NumberOf(l: Level): int {
    l.levelNumber
  }

  function PresentAll(env: string, levels: seq<Level>): (r: seq<Level>)
    ensures |r| == |levels|
    ensures forall i :: 0 <= i < |levels| ==> r[i] == Presented(env, levels[i])
  {
    if levels == [] then [] else [Presented(env, levels[0])] + PresentAll(env, levels[1..])
  }

  lemma PresentedMembers(env: string, levels: seq<Level>, r: seq<Level>)
    requires multiset(r) == multiset(PresentAll(env, levels))
    ensures |r| == |levels|
    ensures forall l :: l in levels ==> Presented(env, l) in r
    ensures forall l :: l in r ==> exists k :: k in levels && l == Presented(env, k)
  {
    var presented := PresentAll(env, levels);
    Sorting.SameMembers(presented, r);
    forall l | l in levels ensures Presented(env, l) in presented {
      var i :| 0 <= i < |levels| && levels[i] == l;
      assert presented[i] == Presented(env, l);
    }
    forall l | l in r ensures exists k :: k in levels && l == Presented(env, k) {
      var i :| 0 <= i < |presented| && presented[i] == l;
      assert levels[i] in levels;
    }
  }

  /** `findAll`: every level, by ascending number, with full image URLs. */
  function FindAll(cat: Catalogue, env: string): (r: seq<Level>)
    ensures Sorting.SortedBy(r, NumberOf)
    ensures |r| == |cat.levels|
    ensures forall l :: l in cat.levels ==> Presented(env, l) in r
    ensures forall l :: l in r ==> exists k :: k in cat.levels && l == Presented(env, k)
  {
    var r := Sorting.SortBy(PresentAll(env, cat.levels), NumberOf);
    Sorting.SortByCorrect(PresentAll(env, cat.levels), NumberOf);
    PresentedMembers(env, cat.levels, r);
    r
  }

  // ---------------------------------------------------------------- edit, remove

  /** `editLevel`: replaces the description of the level with id `id`. */
  function EditLevel(cat: Catalogue, id: nat, description: string): (r: Result<(Catalogue, Level)>)
    ensures r.Err? <==> !HasId(cat.levels, id)
    ensures r.Err? ==> r.error == LevelNotFound
    ensures r.Ok? ==>
      var (cat', level) := r.value;
      && cat'.nextId == cat.nextId
      && |cat'.levels| == |cat.levels|
      && (forall i :: 0 <= i < |cat.levels| && cat.levels[i].id != id ==> cat'.levels[i] == cat.levels[i])
      && (forall i :: 0 <= i < |cat.levels| ==>
            cat'.levels[i].(description := cat.levels[i].description) == cat.levels[i])
      && level.id == id && level.description == description && level in cat'.levels
  {
    match IndexOfId(cat.levels, id)
    case None => Err(LevelNotFound)
    case Some(i) =>
      var level := cat.levels[i].(description := description);
      Ok((cat.(levels := cat.levels[i := level]), level))
  }

  /** `remove`: deletes the level with id `id`. */
  function Remove(cat: Catalogue, id: nat): (r: Result<Catalogue>)
    ensures r.Err? <==> !HasId(cat.levels, id)
    ensures r.Err? ==> r.error == LevelNotFound
    ensures r.Ok? ==>
      && r.value.nextId == cat.nextId
      && |r.value.levels| == |cat.levels| - 1
      && (forall l :: l in r.value.levels ==> l in cat.levels)
      && (forall l :: l in cat.levels && l.id != id ==> l in r.value.levels)
  {
    match IndexOfId(cat.levels, id)
    case None => Err(LevelNotFound)
    case Some(i) =>
      var levels' := cat.levels[..i] + cat.levels[i + 1..];
      assert forall k :: 0 <= k < |cat.levels| && k != i ==>
        cat.levels[k] == (if k < i then levels'[k] else levels'[k - 1]);
      Ok(cat.(levels := levels'))
  }

  /** Editing and removing keep the catalogue valid; after a removal no level
      with that id is left. */
  lemma EditKeepsValid(cat: Catalogue, id: nat, description: string)
    requires Valid(cat)
    ensures var r := EditLevel(cat, id, description); r.Ok? ==> Valid(r.value.0)
  {
    var r := EditLevel(cat, id, description);
    if r.Ok? {
      var levels' := r.value.0.levels;
      assert forall i :: 0 <= i < |levels'| ==>
        levels'[i].id == cat.levels[i].id && levels'[i].levelNumber == cat.levels[i].levelNumber;
    }
  }

  lemma RemoveKeepsValid(cat: Catalogue, id: nat)
    requires Valid(cat)
    ensures var r := Remove(cat, id); r.Ok? ==> Valid(r.value) && !HasId(r.value.levels, id)
  {
    var r := Remove(cat, id);
    if r.Ok? {
      var i := IndexOfId(cat.levels, id).value;
      assert r.value.levels == cat.levels[..i] + cat.levels[i + 1..];
      DropKeepsValid(cat.levels, i, cat.nextId);
    }
  }

  /** Dropping position `i` of a valid table keeps it valid, and no other
      level carries the dropped one's id. */
  lemma DropKeepsValid(levels: seq<Level>, i: nat, nextId: nat)
    requires i < |levels| && Valid(Catalogue(levels, nextId))
    ensures var levels' := levels[..i] + levels[i + 1..];
      && Valid(Catalogue(levels', nextId))
      && !HasId(levels', levels[i].id)
  {
    var levels' := levels[..i] + levels[i + 1..];
    // The new table is the old one with position i dropped.
    forall k | 0 <= k < |levels'|
      ensures levels'[k] == levels[if k < i then k else k + 1]
    {
    }
    forall a, b | 0 <= a < b < |levels'|
      ensures levels'[a].levelNumber != levels'[b].levelNumber
      ensures levels'[a].id < levels'[b].id
    {
      var a', b' := if a < i then a else a + 1, if b < i then b else b + 1;
      assert levels'[a] == levels[a'] && levels'[b] == levels[b'] && a' < b';
    }
    forall k | 0 <= k < |levels'|
      ensures levels'[k].id != levels[i].id && levels'[k].id < nextId
    {
      var k' := if k < i then k else k + 1;
      assert levels'[k] == levels[k'] && k' != i;
    }
  }
}

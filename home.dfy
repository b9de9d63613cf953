/**
 * The home page: the table search, the user's favourites and their toggle,
 * the sections the tables are listed in, and each table's link.
 */
module Home {
  import opened Values
  import opened Strings
  import opened Collections
  import opened Records
  import opened TableTypes

  // ---------------------------------------------------------------------
  // Search
  // ---------------------------------------------------------------------

  /**
   * The search callback: the lowercased id, name, section or description
   * contains the query. The tables listed here always carry a section.
   */
  function MatchesQuery(t: TableSettings, query: string): (found: bool)
    requires t.section.Some?
    ensures query == "" ==> found
  {
    || Contains(ToLower(t.id), query)
    || Contains(ToLower(t.name), query)
    || Contains(ToLower(t.section.value), query)
    || Contains(ToLower(t.description), query)
  }

  /** A query with a capital letter occurs in no lowercased string. */
  lemma {:induction false} CapitalNotInLower(s: string, query: string, i: nat)
    requires i < |query| && 'A' <= query[i] <= 'Z'
    ensures !Contains(ToLower(s), query)
  {
    if s != [] {
      assert ToLower(s)[1..] == ToLower(s[1..]);
      CapitalNotInLower(s[1..], query, i);
    }
  }

  /** The empty query matches every table; a query with a capital letter matches none. */
  lemma SearchBounds(t: TableSettings, query: string)
    requires t.section.Some?
    ensures query == "" ==> MatchesQuery(t, query)
    ensures (exists i :: 0 <= i < |query| && 'A' <= query[i] <= 'Z') ==> !MatchesQuery(t, query)
  {
    if exists i :: 0 <= i < |query| && 'A' <= query[i] <= 'Z' {
      var i :| 0 <= i < |query| && 'A' <= query[i] <= 'Z';
      CapitalNotInLower(t.id, query, i);
      CapitalNotInLower(t.name, query, i);
      CapitalNotInLower(t.section.value, query, i);
      CapitalNotInLower(t.description, query, i);
    }
  }

  // ---------------------------------------------------------------------
  // Favourites
  // ---------------------------------------------------------------------

  /** `favorites`: the stored array, `[]` when there is none. */
  function Favorites(favoriteTables: Option<seq<string>>): seq<string> {
    favoriteTables.GetOr([])
  }

  function IsNot(id: string): string -> bool {
    f => f != id
  }

  /**
   * `newFavorites`: checking appends the id; unchecking removes every
   * occurrence of it and keeps the other ids in order.
   */
  function ToggleFavorite(favorites: seq<string>, id: string, checked: bool): (r: seq<string>)
    ensures checked ==> r == favorites + [id]
    ensures !checked ==> id !in r && forall f :: f != id ==> multiset(r)[f] == multiset(favorites)[f]
    ensures !checked && id !in favorites ==> r == favorites
    ensures !checked ==> Subsequence(r, favorites)
  {
    if checked then favorites + [id]
    else
      FilterCounts(favorites, IsNot(id));
      FilterBy(favorites, IsNot(id))
  }

  /** Checking and then unchecking a table that was not a favourite restores the favourites. */
  lemma ToggleRoundTrip(favorites: seq<string>, id: string)
    requires id !in favorites
    ensures ToggleFavorite(ToggleFavorite(favorites, id, true), id, false) == favorites
  {
    FilterAppend(favorites, [id], IsNot(id));
    assert FilterBy([id], IsNot(id)) == [];
  }

  /** A document update: the fields written to the user document. */
  datatype UserDocUpdate = UserDocUpdate(favoriteTables: seq<string>)

  /** `handleFavorite`: the single update the toggle dispatches. */
  function HandleFavorite(favoriteTables: Option<seq<string>>, id: string, checked: bool): (updates: seq<UserDocUpdate>)
    ensures |updates| == 1
    ensures checked ==> id in updates[0].favoriteTables
    ensures !checked ==> id !in updates[0].favoriteTables
    ensures updates[0].favoriteTables == ToggleFavorite(Favorites(favoriteTables), id, checked)
  {
    [UserDocUpdate(ToggleFavorite(Favorites(favoriteTables), id, checked))]
  }

  // ---------------------------------------------------------------------
  // Sections
  // ---------------------------------------------------------------------

  const FavoritesSection := "Favorites"

  function IdOf(t: TableSettings): string {
    t.id
  }

  /** lodash `groupBy(results, "section")` turns a missing section into the key "undefined". */
  function SectionKey(t: TableSettings): string {
    t.section.GetOr("undefined")
  }

  function AsEntry(t: TableSettings): Option<TableSettings> {
    Some(t)
  }

  function AsEntries(ts: seq<TableSettings>): seq<Option<TableSettings>> {
    seq(|ts|, i requires 0 <= i < |ts| => AsEntry(ts[i]))
  }

  /**
   * The Favorites list: for each favourite id, in order, the search result
   * with that id, or nothing when no result has it.
   */
  function FavoriteEntries(favorites: seq<string>, results: seq<TableSettings>): (r: seq<Option<TableSettings>>)
    ensures |r| == |favorites|
    ensures forall i :: 0 <= i < |r| ==> (r[i].Some? <==> exists t :: t in results && t.id == favorites[i])
    ensures forall i :: 0 <= i < |r| && r[i].Some? ==> r[i].value in results && r[i].value.id == favorites[i]
    ensures forall i, j ::
      (0 <= i < |r| && 0 <= j < |results| && results[j].id == favorites[i]
       && forall m :: 0 <= m < j ==> results[m].id != favorites[i])
      ==> r[i] == Some(results[j])
  {
    seq(|favorites|, i requires 0 <= i < |favorites| => FindBy(results, IdOf, favorites[i]))
  }

  /**
   * `sections`: Favorites first, then one section per section name of the
   * results, in the order the names first occur; a section named
   * "Favorites" takes Favorites' place.
   */
  function HomeSections(favorites: seq<string>, results: seq<TableSettings>): (r: Record<seq<Option<TableSettings>>>)
    ensures Lookup(r, FavoritesSection) ==
      if HasKey(results, SectionKey, FavoritesSection) then Some(AsEntries(Members(results, SectionKey, FavoritesSection)))
      else Some(FavoriteEntries(favorites, results))
    ensures forall s :: s != FavoritesSection ==>
      Lookup(r, s) == if HasKey(results, SectionKey, s) then Some(AsEntries(Members(results, SectionKey, s))) else None
    ensures |r| > 0 && KeysOf(r)[0] == FavoritesSection
    ensures KeysOf(r) == [FavoritesSection] + FilterBy(Dedup(KeysAlong(results, SectionKey)), NotIn([FavoritesSection]))
  {
    var groups := MapValues(GroupBy(results, SectionKey), AsEntries);
    var r := Assign([(FavoritesSection, FavoriteEntries(favorites, results))], groups);
    assert KeysOf([(FavoritesSection, FavoriteEntries(favorites, results))]) == [FavoritesSection];
    r
  }

  // ---------------------------------------------------------------------
  // Links
  // ---------------------------------------------------------------------

  const EncodedSlash := "~2F"

  /** `id.replace(/\//g, "~2F")`. */
  function EncodeId(id: string): (e: string)
    ensures '/' !in e
    ensures '/' !in id ==> e == id
  {
    ReplaceAll(id, '/', EncodedSlash)
  }

  /** Each `/` of an id becomes "~2F", every other character stays, and ids are encoded part by part. */
  lemma EncodeIdParts(a: string, b: string, x: char)
    ensures EncodeId(a + b) == EncodeId(a) + EncodeId(b)
    ensures EncodeId([x]) == if x == '/' then EncodedSlash else [x]
  {
    ReplaceAllAppend(a, b, '/', EncodedSlash);
    ReplaceAllChar(x, '/', EncodedSlash);
  }

  function Route(t: TableSettings, tableRoute: string, tableGroupRoute: string): string {
    if t.isCollectionGroup then tableGroupRoute else tableRoute
  }

  /**
   * `getLink`: the collection-group route or the table route (given, as
   * the routes table is not part of this model), "/", and the id as one
   * path segment, from which decoding recovers it when it holds no '~'.
   */
  function GetLink(t: TableSettings, tableRoute: string, tableGroupRoute: string): (link: string)
    ensures var n := |Route(t, tableRoute, tableGroupRoute)|;
      && link == Route(t, tableRoute, tableGroupRoute) + "/" + EncodeId(t.id)
      && n < |link| && link[..n] == Route(t, tableRoute, tableGroupRoute) && link[n] == '/'
      && '/' !in link[n + 1..]
      && ('~' !in t.id ==> DecodeId(link[n + 1..]) == t.id)
  {
    var route := Route(t, tableRoute, tableGroupRoute);
    var link := route + "/" + EncodeId(t.id);
    assert link[|route| + 1..] == EncodeId(t.id);
    if '~' !in t.id then EncodeRoundTrip(t.id); link else link
  }

  /** Turns each "~2F" back into "/". */
  function DecodeId(e: string): string {
    if e == [] then []
    else if EncodedSlash <= e then "/" + DecodeId(e[3..])
    else [e[0]] + DecodeId(e[1..])
  }

  /** The encoding is undone by decoding for every id without a '~'. */
  lemma {:induction false} EncodeRoundTrip(id: string)
    requires '~' !in id
    ensures DecodeId(EncodeId(id)) == id
  {
    if id != [] {
      var x, t := id[0], id[1..];
      assert id == [x] + t;
      EncodeIdParts([x], t, x);
      EncodeRoundTrip(t);
      if x == '/' {
        DecodeSlash(EncodeId(t));
      } else {
        DecodeOther(x, EncodeId(t));
      }
    }
  }

  lemma DecodeSlash(rest: string)
    ensures DecodeId(EncodedSlash + rest) == "/" + DecodeId(rest)
  {
    assert (EncodedSlash + rest)[3..] == rest;
  }

  lemma DecodeOther(c: char, rest: string)
    requires c != '~'
    ensures DecodeId([c] + rest) == [c] + DecodeId(rest)
  {
    assert ([c] + rest)[0] == c && ([c] + rest)[1..] == rest;
  }

  /** Two different ids, one with a literal "~2F", share a link. */
  lemma EncodingCollides()
    ensures EncodeId("a/b") == EncodeId("a~2Fb")
  {
    assert EncodeId("b") == "b";
    assert EncodeId("Fb") == "Fb";
    assert EncodeId("2Fb") == "2Fb";
    assert EncodeId("/b") == "~2Fb";
    assert EncodeId("~2Fb") == "~2Fb";
  }
}

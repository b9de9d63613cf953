/**
 * The navigation drawer: the table sections it lists, starting with the
 * user's favourites, and its collapsed and expanded widths.
 */
module NavDrawer {
  import opened Values
  import opened Collections
  import opened Records
  import opened TableTypes

  // ---------------------------------------------------------------------
  // Sections
  // ---------------------------------------------------------------------

  const FavoritesSection := "Favorites"

  /** `favorites`: the stored array, `[]` when there is none. */
  function Favorites(settings: UserSettings): seq<string> {
    settings.favoriteTables.GetOr([])
  }

  function IdOf(t: TableSettings): string {
    t.id
  }

  /** lodash `groupBy(tables, "section")` turns a missing section into the key "undefined". */
  function SectionKey(t: TableSettings): string {
    t.section.GetOr("undefined")
  }

  /**
   * The Favorites section: for each favourite id, in favourite order, the
   * first table with that id; ids no table has are dropped.
   */
  function FavoriteTables(favorites: seq<string>, tables: seq<TableSettings>): (r: seq<TableSettings>)
    ensures |r| <= |favorites|
    ensures forall t :: t in r ==> t in tables && t.id in favorites
    ensures forall t :: t in r ==> FindBy(tables, IdOf, t.id) == Some(t)
    ensures forall id :: id in favorites && (exists t :: t in tables && t.id == id) ==>
      exists t :: t in r && t.id == id
  {
    if favorites == [] then []
    else
      var found := FindBy(tables, IdOf, favorites[0]);
      var rest := FavoriteTables(favorites[1..], tables);
      assert favorites == [favorites[0]] + favorites[1..];
      (if found.Some? then [found.value] else []) + rest
  }

  /** Each favourite contributes at most its first table, so the list follows the favourites. */
  lemma {:induction false} FavoriteTablesInOrder(a: seq<string>, b: seq<string>, tables: seq<TableSettings>)
    ensures FavoriteTables(a + b, tables) == FavoriteTables(a, tables) + FavoriteTables(b, tables)
  {
    if a != [] {
      assert (a + b)[1..] == a[1..] + b;
      FavoriteTablesInOrder(a[1..], b, tables);
    } else {
      assert a + b == b;
    }
  }

  /**
   * `sections`: Favorites first, then the groups of the tables by section,
   * spread over it, so that a section named "Favorites" replaces it. The
   * other sections follow in the order their names first occur among the
   * tables, which is the order `Object.entries` renders them in.
   */
  function NavSections(favorites: seq<string>, tables: seq<TableSettings>): (r: Record<seq<TableSettings>>)
    ensures Distinct(r)
    ensures |r| > 0 && KeysOf(r)[0] == FavoritesSection
    ensures KeysOf(r) == [FavoritesSection] + FilterBy(Dedup(KeysAlong(tables, SectionKey)), NotIn([FavoritesSection]))
    ensures Lookup(r, FavoritesSection) ==
      if HasKey(tables, SectionKey, FavoritesSection) then Some(Members(tables, SectionKey, FavoritesSection))
      else Some(FavoriteTables(favorites, tables))
    ensures forall s :: s != FavoritesSection ==>
      Lookup(r, s) == if HasKey(tables, SectionKey, s) then Some(Members(tables, SectionKey, s)) else None
  {
    var start := [(FavoritesSection, FavoriteTables(favorites, tables))];
    var groups := GroupBy(tables, SectionKey);
    assert KeysOf(start) == [FavoritesSection] && Distinct(start);
    assert Distinct(groups);
    Assign(start, groups)
  }

  predicate NonEmpty(e: (string, seq<TableSettings>)) {
    e.1 != []
  }

  /**
   * The sections the drawer renders: those with at least one table, in
   * their order, each as often as it is listed.
   */
  function RenderedSections(sections: Record<seq<TableSettings>>): (r: Record<seq<TableSettings>>)
    ensures forall e :: e in r <==> e in sections && e.1 != []
    ensures Subsequence(r, sections)
    ensures forall e :: multiset(r)[e] == if e.1 != [] then multiset(sections)[e] else 0
  {
    FilterCounts(sections, NonEmpty);
    FilterBy(sections, NonEmpty)
  }

  /** Every section of the grouping other than Favorites is rendered, with all its tables. */
  lemma RenderedNavSections(favorites: seq<string>, tables: seq<TableSettings>, s: string)
    requires s != FavoritesSection && HasKey(tables, SectionKey, s)
    ensures var sections := NavSections(favorites, tables);
      (s, Members(tables, SectionKey, s)) in RenderedSections(sections)
  {
    var sections := NavSections(favorites, tables);
    LookupIn(sections, s);
  }

  /** A key's value is listed among the object's entries. */
  lemma {:induction false} LookupIn<V>(r: Record<V>, k: string)
    requires Lookup(r, k).Some?
    ensures (k, Lookup(r, k).value) in r
  {
    if r[0].0 != k {
      LookupIn(r[1..], k);
    }
  }

  // ---------------------------------------------------------------------
  // Width
  // ---------------------------------------------------------------------

  const NavDrawerWidth := 256
  const NavDrawerCollapsedWidth := 56

  /** What the drawer shows, given whether it is open, permanent, hovered or has a menu open. */
  datatype DrawerLayout = DrawerLayout(collapsed: bool, tempExpanded: bool, width: int, closesItself: bool)

  /**
   * The drawer layout: collapsed when closed but permanent; expanded for
   * the moment while collapsed and hovered or with a menu open; 56 pixels
   * wide when collapsed and not expanded, 256 otherwise; a close handler only
   * when the drawer is not permanent.
   */
  function Layout(open: bool, isPermanent: bool, hover: bool, menuOpen: bool): (l: DrawerLayout)
    ensures l.width == NavDrawerCollapsedWidth <==> !open && isPermanent && !hover && !menuOpen
    ensures l.width == NavDrawerWidth || l.width == NavDrawerCollapsedWidth
    ensures l.tempExpanded ==> l.collapsed
    ensures l.closesItself <==> !isPermanent
    ensures l.collapsed == (!open && isPermanent)
    ensures l.tempExpanded == ((hover || menuOpen) && l.collapsed)
  {
    var collapsed := !open && isPermanent;
    var tempExpanded := (hover || menuOpen) && collapsed;
    var width := if collapsed && !tempExpanded then NavDrawerCollapsedWidth else NavDrawerWidth;
    DrawerLayout(collapsed, tempExpanded, width, !isPermanent)
  }
}

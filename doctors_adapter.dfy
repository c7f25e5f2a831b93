/**
 * The paged doctor list adapter: a title row at position 0 followed by the
 * doctors, so adapter position p shows list element p - 1.  The list may
 * hold placeholders (nulls) for rows not loaded yet.
 */
module DoctorsAdapter {
  import opened Wrappers
  import opened Model
  import opened ObserverProxy
  import Repository

  const TypeHeader: int := 0
  const TypeItem: int := 1
  /** The offset of the observer proxy the adapter registers. */
  const HeaderCount: nat := 1

  /** The context-menu ids. */
  const ItemIdMap: int := 101
  const ItemIdCall: int := 102
  const ItemIdEmail: int := 103
  const ItemIdWebsite: int := 104

  /** `getItemCount`: the list and the title row. */
  function ItemCount(listSize: nat): (n: nat)
    ensures n == listSize + HeaderCount
  {
    listSize + 1
  }

  /** `getItemViewType` */
  function ItemViewType(position: int): (t: int)
    ensures t == TypeHeader <==> position == 0
    ensures t == TypeItem <==> position != 0
  {
    if position == 0 then TypeHeader else TypeItem
  }

  datatype ViewHolder = HeaderViewHolder | DoctorViewHolder

  /** `onCreateViewHolder`, or the IllegalStateException for an unknown view type. */
  datatype Created = Holder(holder: ViewHolder) | NoViewTypeFound(viewType: int)

  function OnCreateViewHolder(viewType: int): (r: Created)
    ensures r.Holder? <==> viewType == TypeHeader || viewType == TypeItem
    ensures r.Holder? ==> (r.holder.HeaderViewHolder? <==> viewType == TypeHeader)
    ensures r.NoViewTypeFound? ==> r.viewType == viewType
  {
    if viewType == TypeHeader then Holder(HeaderViewHolder)
    else if viewType == TypeItem then Holder(DoctorViewHolder)
    else NoViewTypeFound(viewType)
  }

  /** Adapter position to list index. */
  function ListIndex(position: int): int {
    position - HeaderCount
  }

  /**
   * Every position of the adapter gets a holder: the title at 0 and a doctor
   * holder at each other position, which maps to an element of the list.
   */
  lemma EveryPositionHasHolder(listSize: nat, position: int)
    requires 0 <= position < ItemCount(listSize)
    ensures OnCreateViewHolder(ItemViewType(position)).Holder?
    ensures OnCreateViewHolder(ItemViewType(position)).holder.HeaderViewHolder? <==> position == 0
    ensures position != 0 ==> 0 <= ListIndex(position) < listSize
  {
  }

  /**
   * `onBindViewHolder`: the doctor bound at a position, if any.  A doctor
   * holder sits at a position of the list; a placeholder binds nothing.
   */
  function OnBindViewHolder(items: seq<Option<DoctorViewItem>>, holder: ViewHolder, position: int)
    : (r: Option<DoctorViewItem>)
    requires holder.DoctorViewHolder? ==> 1 <= position <= |items|
    ensures holder.HeaderViewHolder? ==> r == None
    ensures holder.DoctorViewHolder? ==> r == items[ListIndex(position)]
  {
    match holder
    case HeaderViewHolder => None
    case DoctorViewHolder => items[position - 1]
  }

  /** Binding at the holder created for each position shows list element position - 1, and the title shows none. */
  lemma BindFollowsViewType(items: seq<Option<DoctorViewItem>>, position: int)
    requires 0 <= position < ItemCount(|items|)
    ensures var holder := OnCreateViewHolder(ItemViewType(position)).holder;
            OnBindViewHolder(items, holder, position) == if position == 0 then None else items[position - 1]
  {
  }

  // ------------------------------------------------------------ context menu

  /** The four context-menu entries. */
  datatype MenuOption = MapOption | CallOption | EmailOption | WebsiteOption

  /** What a menu entry carries: the location, or a phone number, email or website. */
  datatype MenuPayload = LocationPayload(location: Location) | TextPayload(text: string)

  /** `MenuItem(id, item)` */
  datatype MenuItem = MenuItem(id: int, item: Option<MenuPayload>)

  function MenuId(option: MenuOption): int {
    match option
    case MapOption => ItemIdMap
    case CallOption => ItemIdCall
    case EmailOption => ItemIdEmail
    case WebsiteOption => ItemIdWebsite
  }

  /** `RecyclerView.NO_POSITION`: the adapter position of a holder whose row is gone. */
  const NoPosition: int := -1

  /** What a click does: publish the menu item, or throw from `getItem` for an index outside the list. */
  datatype Click = Published(menuItem: MenuItem) | IndexOutOfBounds(index: int)

  /**
   * The entry chosen on the row whose adapter position, read at click time,
   * is `position`: its id and the element's matching field (null for a
   * placeholder).  A row removed while the menu was open has `NoPosition`,
   * and `getItem` then throws.
   */
  function OnMenuItemClick(items: seq<Option<DoctorViewItem>>, position: int, option: MenuOption): (c: Click)
    ensures c.Published? <==> 1 <= position <= |items|
    ensures c.IndexOutOfBounds? ==> c.index == position - 1
    ensures c.Published? ==> c.menuItem.id == MenuId(option)
    ensures c.Published? && option == MapOption ==> c.menuItem.id == 101
    ensures c.Published? && option == CallOption ==> c.menuItem.id == 102
    ensures c.Published? && option == EmailOption ==> c.menuItem.id == 103
    ensures c.Published? && option == WebsiteOption ==> c.menuItem.id == 104
    ensures c.Published? ==> (c.menuItem.item.None? <==> items[ListIndex(position)].None?)
    ensures c.Published? && items[ListIndex(position)].Some? ==>
      var d := items[ListIndex(position)].value;
      c.menuItem.item.value == match option
        case MapOption => LocationPayload(d.location)
        case CallOption => TextPayload(d.phoneNumber)
        case EmailOption => TextPayload(d.email)
        case WebsiteOption => TextPayload(d.website)
  {
    if !(0 <= position - 1 < |items|) then IndexOutOfBounds(position - 1)
    else
      var element := items[position - 1];
      var payload :=
        if element.None? then None
        else match option
          case MapOption => Some(LocationPayload(element.value.location))
          case CallOption => Some(TextPayload(element.value.phoneNumber))
          case EmailOption => Some(TextPayload(element.value.email))
          case WebsiteOption => Some(TextPayload(element.value.website));
      Published(MenuItem(MenuId(option), payload))
  }

  /** A click on a row that was removed while its menu was open throws, whatever the list holds. */
  lemma UnboundRowClickThrows(items: seq<Option<DoctorViewItem>>, option: MenuOption)
    ensures OnMenuItemClick(items, NoPosition, option) == IndexOutOfBounds(-2)
  {
  }

  /** The menu id tells which entry was chosen. */
  lemma MenuIdsDistinct(a: MenuOption, b: MenuOption)
    ensures MenuId(a) == MenuId(b) <==> a == b
  {
  }

  // ------------------------------------------------------------ diff rules

  /** `areItemsTheSame`: structural equality of the whole row. */
  predicate AreItemsTheSame(oldItem: DoctorViewItem, newItem: DoctorViewItem)
    ensures AreItemsTheSame(oldItem, newItem) ==> AreContentsTheSame(oldItem, newItem)
    ensures AreItemsTheSame(oldItem, newItem) ==> oldItem.id == newItem.id
  {
    oldItem == newItem
  }

  /** `areContentsTheSame`: the nine displayed fields agree; the two visit columns are ignored. */
  predicate AreContentsTheSame(oldItem: DoctorViewItem, newItem: DoctorViewItem)
    ensures AreContentsTheSame(oldItem, newItem) <==>
      oldItem.(recentVisiting := 0, isRecent := false) == newItem.(recentVisiting := 0, isRecent := false)
  {
    var a0 := oldItem.(recentVisiting := 0, isRecent := false);
    var b0 := newItem.(recentVisiting := 0, isRecent := false);
    assert a0.id == oldItem.id && b0.id == newItem.id;
    assert a0.name == oldItem.name && b0.name == newItem.name;
    && oldItem.id == newItem.id
    && oldItem.name == newItem.name
    && oldItem.photoId == newItem.photoId
    && oldItem.rating == newItem.rating
    && oldItem.address == newItem.address
    && oldItem.location == newItem.location
    && oldItem.phoneNumber == newItem.phoneNumber
    && oldItem.email == newItem.email
    && oldItem.website == newItem.website
  }

  /** The same item always has the same contents. */
  lemma ItemsSameImpliesContentsSame(a: DoctorViewItem, b: DoctorViewItem)
    requires AreItemsTheSame(a, b)
    ensures AreContentsTheSame(a, b)
  {
  }

  /** The contents are the same exactly when the rows differ at most in their two visit columns. */
  lemma ContentsSameIgnoresVisit(a: DoctorViewItem, b: DoctorViewItem)
    ensures AreContentsTheSame(a, b) <==> Repository.SameDoctor(a, b)
    ensures AreContentsTheSame(a, b) && a.recentVisiting == b.recentVisiting && a.isRecent == b.isRecent
            ==> AreItemsTheSame(a, b)
  {
    if AreContentsTheSame(a, b) {
      assert a.(recentVisiting := 0, isRecent := false) == b.(recentVisiting := 0, isRecent := false);
    }
    if Repository.SameDoctor(a, b) {
      var a0 := a.(recentVisiting := 0, isRecent := false);
      var b0 := b.(recentVisiting := 0, isRecent := false);
      assert a0.id == a.id && b0.id == b.id;
      assert a0.name == a.name && b0.name == b.name;
    }
  }

  /** A visit leaves every stored row's displayed contents the same. */
  lemma VisitKeepsContents(before: Repository.Dao.Table, now: int, id: string, evicted: Option<string>,
                           after: Repository.Dao.Table)
    requires Repository.VisitOutcome(before, now, id, evicted, after)
    ensures after.Keys == before.Keys
    ensures forall k :: k in before ==> AreContentsTheSame(before[k], after[k])
  {
    Repository.VisitKeepsRows(before, now, id, evicted, after);
    forall k | k in before
      ensures AreContentsTheSame(before[k], after[k])
    {
      ContentsSameIgnoresVisit(before[k], after[k]);
      assert Repository.SameDoctor(after[k], before[k]);
    }
  }

  // ------------------------------------------------------- header offset

  /**
   * A range event about list positions, forwarded by the adapter's proxy,
   * names adapter positions of doctor rows only, and each maps back to the
   * list position it came from.
   */
  lemma ForwardedRangeSkipsHeader<P>(e: AdapterEvent<P>, listSize: nat, p: int)
    requires e.IsRange() && 0 <= e.positionStart && e.positionStart + e.itemCount <= listSize
    requires Forward(e, HeaderCount).positionStart <= p < Forward(e, HeaderCount).positionStart + Forward(e, HeaderCount).itemCount
    ensures p < ItemCount(listSize)
    ensures ItemViewType(p) == TypeItem
    ensures e.positionStart <= ListIndex(p) < e.positionStart + e.itemCount
  {
  }
}

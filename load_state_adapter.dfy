/**
 * The footer adapter below the doctor list: it shows one row while a page is
 * loading or has failed, and none when loading is done.  Changing the state
 * notifies the list of the row appearing, disappearing or changing; those
 * notifications are kept, in order, in `notifications`.
 */
module LoadStateAdapter {
  import opened LoadStates

  /** `notifyItemRemoved`, `notifyItemInserted` and `notifyItemChanged`. */
  datatype Notification = ItemRemoved(position: nat) | ItemInserted(position: nat) | ItemChanged(position: nat)

  /** Loading and Error show as a row; Done does not. */
  predicate DisplayLoadStateAsItem(s: LoadState) {
    s.Loading? || s.Error?
  }

  /** `getItemCount` for a state: one row when it is displayed, none otherwise. */
  function ItemCountFor(s: LoadState): (n: nat)
    ensures n <= 1
    ensures n == 1 <==> DisplayLoadStateAsItem(s)
    ensures n == 0 <==> s == Done
  {
    if DisplayLoadStateAsItem(s) then 1 else 0
  }

  /** What a notification tells the list about its size. */
  function Apply(count: int, n: Notification): int {
    match n
    case ItemRemoved(_) => count - 1
    case ItemInserted(_) => count + 1
    case ItemChanged(_) => count
  }

  /** A notification refers to a row that exists (or, for an insertion, a place that does). */
  predicate ValidAt(count: int, n: Notification) {
    match n
    case ItemRemoved(p) => p < count
    case ItemInserted(p) => p <= count
    case ItemChanged(p) => p < count
  }

  /** The list size after a run of notifications. */
  function ApplyAll(count: int, ns: seq<Notification>): int
    decreases |ns|
  {
    if ns == [] then count else ApplyAll(Apply(count, ns[0]), ns[1..])
  }

  lemma {:induction false} ApplyAllAppend(count: int, a: seq<Notification>, b: seq<Notification>)
    ensures ApplyAll(count, a + b) == ApplyAll(ApplyAll(count, a), b)
    decreases |a|
  {
    if a == [] {
      assert a + b == b;
    } else {
      assert (a + b)[1..] == a[1..] + b;
      ApplyAllAppend(Apply(count, a[0]), a[1..], b);
    }
  }

  /** The notifications the `loadState` setter emits when the state goes from `prev` to `next`. */
  function NotificationsFor(prev: LoadState, next: LoadState): (ns: seq<Notification>)
    ensures prev == next ==> ns == []
    ensures |ns| <= 1
    ensures ns == [ItemRemoved(0)] <==> prev != next && ItemCountFor(prev) == 1 && ItemCountFor(next) == 0
    ensures ns == [ItemInserted(0)] <==> prev != next && ItemCountFor(prev) == 0 && ItemCountFor(next) == 1
    ensures ns == [ItemChanged(0)] <==> prev != next && ItemCountFor(prev) == 1 && ItemCountFor(next) == 1
  {
    if prev == next then []
    else
      var displayOld := DisplayLoadStateAsItem(prev);
      var displayNew := DisplayLoadStateAsItem(next);
      if displayOld && !displayNew then [ItemRemoved(0)]
      else if displayNew && !displayOld then [ItemInserted(0)]
      else if displayOld && displayNew then [ItemChanged(0)]
      else []
  }

  /** The notifications agree with the item count: they take the old count to the new, through rows that exist. */
  lemma NotificationsMatchCount(prev: LoadState, next: LoadState)
    ensures ApplyAll(ItemCountFor(prev), NotificationsFor(prev, next)) == ItemCountFor(next)
    ensures forall n :: n in NotificationsFor(prev, next) ==> ValidAt(ItemCountFor(prev), n)
  {
    var ns := NotificationsFor(prev, next);
    if ns != [] {
      assert ns[1..] == [];
    }
  }

  class DoctorsLoadStateAdapter {
    var loadState: LoadState
    /** Every notification emitted so far, oldest first. */
    var notifications: seq<Notification>

    /** The list, replaying the notifications from empty, has as many rows as the adapter reports. */
    ghost predicate Valid()
      reads this
    {
      ApplyAll(0, notifications) == ItemCountFor(loadState)
    }

    constructor ()
      ensures loadState == Done && notifications == []
      ensures Valid()
    {
      loadState := Done;
      notifications := [];
    }

    /** `getItemCount` */
    function GetItemCount(): (n: nat)
      reads this
      ensures Valid() ==> n == ApplyAll(0, notifications)
      ensures n == 1 <==> DisplayLoadStateAsItem(loadState)
    {
      ItemCountFor(loadState)
    }

    /** The `loadState` setter. */
    method SetLoadState(next: LoadState)
      requires Valid()
      modifies this
      ensures Valid()
      ensures loadState == next
      ensures notifications == old(notifications) + NotificationsFor(old(loadState), next)
    {
      if loadState != next {
        var displayOldItem := DisplayLoadStateAsItem(loadState);
        var displayNewItem := DisplayLoadStateAsItem(next);
        var emitted: seq<Notification> := [];
        if displayOldItem && !displayNewItem {
          emitted := [ItemRemoved(0)];
        } else if displayNewItem && !displayOldItem {
          emitted := [ItemInserted(0)];
        } else if displayOldItem && displayNewItem {
          emitted := [ItemChanged(0)];
        }
        assert emitted == NotificationsFor(loadState, next);
        ApplyAllAppend(0, notifications, emitted);
        NotificationsMatchCount(loadState, next);
        notifications := notifications + emitted;
        loadState := next;
      }
    }
  }
}

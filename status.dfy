/**
 * The mandate-status helpers of the dashboard: the icon chosen for an
 * executive status, whether a mandate is still active (and so polled), and
 * the status filter behind the toolbar toggles.
 */
module Status {
  import opened Wrappers
  import opened Strings

  /** The seven executive statuses a mandate reports. */
  const Known: set<string> := {"PENDING", "RUNNING", "UNNEEDED", "FAILURE", "SUCCESS", "NEEDED", "BLOCKED"}

  /**
   * `getIconClassForStatus`: the Font Awesome classes of a status, or
   * `undefined` for a string the switch does not list. `SUCCESS` and
   * `NEEDED` share the check mark.
   */
  function IconClassForStatus(status: string): (icon: Option<string>)
    ensures icon.Some? <==> status in Known
    ensures icon == Some("fa-check") <==> status == "SUCCESS" || status == "NEEDED"
  {
    match status
    case "PENDING" => Some("fa-clock-o")
    case "RUNNING" => Some("fa-gear fa-spin")
    case "UNNEEDED" => Some("fa-times")
    case "FAILURE" => Some("fa-exclamation")
    case "SUCCESS" => Some("fa-check")
    case "NEEDED" => Some("fa-check")
    case "BLOCKED" => Some("fa-ban")
    case _ => None
  }

  /**
   * The attributes `isActive` reads: a composite mandate is judged by the
   * counts of its leaves' statuses, a leaf by its own executive status.
   */
  datatype MandateStatus = MandateStatus(composite: bool, executiveStatus: string, leafStatusCounts: map<string, nat>)

  /** `counts[key] || 0`: a missing count reads as zero. */
  function CountOf(counts: map<string, nat>, key: string): nat
  {
    if key in counts then counts[key] else 0
  }

  /** `isActive`: whether anything under the mandate is still pending or running. */
  function IsActive(status: MandateStatus): (active: bool)
    ensures status.composite ==>
      (active <==> CountOf(status.leafStatusCounts, "PENDING") > 0 || CountOf(status.leafStatusCounts, "RUNNING") > 0)
    ensures !status.composite ==>
      (active <==> status.executiveStatus == "PENDING" || status.executiveStatus == "RUNNING")
  {
    if status.composite then
      CountOf(status.leafStatusCounts, "PENDING") + CountOf(status.leafStatusCounts, "RUNNING") > 0
    else
      status.executiveStatus == "PENDING" || status.executiveStatus == "RUNNING"
  }

  /** A leaf is active exactly when its icon is the clock or the spinning gear. */
  lemma ActiveLeafIcon(status: MandateStatus)
    requires !status.composite
    ensures IsActive(status) <==>
      IconClassForStatus(status.executiveStatus) in {Some("fa-clock-o"), Some("fa-gear fa-spin")}
  {
  }

  //--------------------------------------------------------------------------
  // The status filter.

  /**
   * The key `show` looks a status up under: the status lower-cased, with
   * `needed` filed under `success` and `blocked` under `failure`.
   */
  function FilterKey(status: string): (key: string)
    ensures Lower(key) == key
    ensures key != "needed" && key != "blocked"
  {
    LowerIdempotent(status);
    assert Lower("success") == "success" && Lower("failure") == "failure";
    var sl := Lower(status);
    if sl == "needed" then "success" else if sl == "blocked" then "failure" else sl
  }

  /** The filter a page starts with: all five keys shown. */
  function DefaultStatuses(): map<string, bool>
  {
    map["pending" := true, "running" := true, "success" := true, "unneeded" := true, "failure" := true]
  }

  /** `show`: `statuses[key]`, which is `undefined` for a key never set. */
  function Show(statuses: map<string, bool>, status: string): (shown: Option<bool>)
    ensures shown.Some? <==> FilterKey(status) in statuses
    ensures shown.Some? ==> shown.value == statuses[FilterKey(status)]
  {
    var key := FilterKey(status);
    if key in statuses then Some(statuses[key]) else None
  }

  /**
   * The dictionary after `toggle(key)`: the key's value negated, where an
   * unset key counts as false (so it becomes true), and every other key as
   * it was.
   */
  function Toggled(statuses: map<string, bool>, key: string): (r: map<string, bool>)
    ensures key in r && r[key] == !(key in statuses && statuses[key])
    ensures forall k :: k != key ==> (k in r <==> k in statuses)
    ensures forall k :: k != key && k in statuses ==> r[k] == statuses[k]
  {
    statuses[key := !(key in statuses && statuses[key])]
  }

  /** The filter object: `statuses` is the dictionary `toggle` mutates. */
  class MandateStatusFilter {
    var statuses: map<string, bool>

    constructor()
      ensures statuses == DefaultStatuses()
    {
      statuses := DefaultStatuses();
    }

    /** `toggle(status)`: negates the entry stored under `status` itself, not under its filter key. */
    method Toggle(status: string)
      modifies this
      ensures statuses == Toggled(old(statuses), status)
    {
      statuses := statuses[status := !(status in statuses && statuses[status])];
    }
  }

  /** Lower-casing twice is lower-casing once. */
  lemma LowerIdempotent(s: string)
    ensures Lower(Lower(s)) == Lower(s)
  {
  }

  /**
   * A filter key is filed under itself, so asking `show` about the key
   * answers as for any status filed under it.
   */
  lemma ShowByKey(statuses: map<string, bool>, status: string)
    ensures Show(statuses, FilterKey(status)) == Show(statuses, status)
  {
  }

  /**
   * Toggling `key` flips what `show` answers for exactly the statuses filed
   * under `key`; every other status shows as before.
   */
  lemma ShowAfterToggle(statuses: map<string, bool>, key: string, status: string)
    ensures Show(Toggled(statuses, key), status) ==
      if FilterKey(status) == key then Some(Show(statuses, status) != Some(true))
      else Show(statuses, status)
  {
  }

  /** Toggling an existing key twice restores the filter. */
  lemma ToggleTwice(statuses: map<string, bool>, key: string)
    requires key in statuses
    ensures Toggled(Toggled(statuses, key), key) == statuses
  {
  }

  /** The filter key of each executive status. */
  lemma FilterKeysOfKnown()
    ensures FilterKey("PENDING") == "pending" && FilterKey("RUNNING") == "running"
    ensures FilterKey("UNNEEDED") == "unneeded" && FilterKey("FAILURE") == "failure"
    ensures FilterKey("SUCCESS") == "success" && FilterKey("NEEDED") == "success"
    ensures FilterKey("BLOCKED") == "failure"
  {
    assert Lower("PENDING") == "pending";
    assert Lower("RUNNING") == "running";
    assert Lower("UNNEEDED") == "unneeded";
    assert Lower("FAILURE") == "failure";
    assert Lower("SUCCESS") == "success";
    assert Lower("NEEDED") == "needed";
    assert Lower("BLOCKED") == "blocked";
  }

  /** With the starting filter, every executive status is shown. */
  lemma DefaultShowsEveryStatus(status: string)
    requires status in Known
    ensures Show(DefaultStatuses(), status) == Some(true)
  {
    FilterKeysOfKnown();
  }
}

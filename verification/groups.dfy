/** Choosing where to post and where to look (bot.py, lines 63-80 and 112):
    the target is the first dialog with the configured name that is a group;
    the groups scanned are the groups and channels of the account, without
    broadcast channels and without the target itself. */
module Groups {
  import opened Util

  /** The peer behind a dialog, after Telethon's `Chat`, `Channel` and `User`
      types. A supergroup is a `Channel` with `megagroup` set; a broadcast
      channel has `broadcast` set. */
  datatype Entity =
    | Chat(id: int)
    | Channel(id: int, megagroup: bool, broadcast: bool)
    | User(id: int)

  /** One entry of `client.iter_dialogs()`. */
  datatype Dialog = Dialog(name: string, entity: Entity)

  /** Telethon's `dialog.is_group`: a basic chat or a supergroup. */
  predicate IsGroup(d: Dialog)
  {
    d.entity.Chat? || (d.entity.Channel? && d.entity.megagroup)
  }

  /** Telethon's `dialog.is_channel`: any `Channel`, supergroups included. */
  predicate IsChannel(d: Dialog)
  {
    d.entity.Channel?
  }

  /** The test of line 66. */
  predicate IsTarget(d: Dialog, name: string)
  {
    d.name == name && IsGroup(d)
  }

  /** `find_target_group`: the entity of the first dialog that is a group
      named exactly `name`, or `None` when no dialog is. */
  function FindTargetGroup(ds: seq<Dialog>, name: string): Option<Entity>
  {
    if ds == [] then None
    else if IsTarget(ds[0], name) then Some(ds[0].entity)
    else FindTargetGroup(ds[1..], name)
  }

  /** The lookup finds nothing exactly when no dialog is a group with that
      name; otherwise it returns the entity of the first such dialog. */
  lemma {:induction false} FindTargetSpec(ds: seq<Dialog>, name: string)
    ensures FindTargetGroup(ds, name).None? <==> forall i :: 0 <= i < |ds| ==> !IsTarget(ds[i], name)
    ensures FindTargetGroup(ds, name).Some? ==>
      exists i :: 0 <= i < |ds| && IsTarget(ds[i], name) && ds[i].entity == FindTargetGroup(ds, name).value
        && forall j :: 0 <= j < i ==> !IsTarget(ds[j], name)
    decreases |ds|
  {
    if ds != [] && !IsTarget(ds[0], name) {
      FindTargetSpec(ds[1..], name);
      var r := FindTargetGroup(ds[1..], name);
      assert forall i :: 0 < i < |ds| ==> ds[i] == ds[1..][i - 1];
      if r.Some? {
        var i :| 0 <= i < |ds[1..]| && IsTarget(ds[1..][i], name) && ds[1..][i].entity == r.value
          && forall j :: 0 <= j < i ==> !IsTarget(ds[1..][j], name);
        assert IsTarget(ds[i + 1], name) && ds[i + 1].entity == r.value;
        assert forall j :: 0 < j < i + 1 ==> !IsTarget(ds[j], name);
      }
    }
  }

  /** The condition of lines 75-78: a group or a channel, but not a
      broadcast channel. */
  predicate IsCandidate(d: Dialog)
  {
    (IsGroup(d) || IsChannel(d)) && !(d.entity.Channel? && d.entity.broadcast)
  }

  /** `get_all_groups`. */
  function AllGroups(ds: seq<Dialog>): seq<Dialog>
  {
    Filter(IsCandidate, ds)
  }

  /** Line 112: the groups that are scanned, the target's id removed. */
  function ScanCandidates(ds: seq<Dialog>, target: Entity): seq<Dialog>
  {
    Filter((d: Dialog) => d.entity.id != target.id, AllGroups(ds))
  }

  /** A dialog is scanned exactly when it is in the list, is a group or a
      non-broadcast channel, and is not the target; the scan order is the
      order of `iter_dialogs`. */
  lemma CandidatesSpec(ds: seq<Dialog>, target: Entity)
    ensures forall d :: d in ScanCandidates(ds, target) <==>
      d in ds && IsCandidate(d) && d.entity.id != target.id
    ensures IsSubseq(ScanCandidates(ds, target), ds)
  {
    var q := (d: Dialog) => d.entity.id != target.id;
    var both := (d: Dialog) => IsCandidate(d) && d.entity.id != target.id;
    FilterTwice(IsCandidate, q, both, ds);
    FilterSpec(both, ds);
  }

  /** The target group is never among the scanned groups. */
  lemma TargetNotScanned(ds: seq<Dialog>, name: string)
    requires FindTargetGroup(ds, name).Some?
    ensures forall d :: d in ScanCandidates(ds, FindTargetGroup(ds, name).value) ==>
      d.entity.id != FindTargetGroup(ds, name).value.id
  {
    CandidatesSpec(ds, FindTargetGroup(ds, name).value);
  }

  /** Broadcast channels are never scanned. */
  lemma BroadcastNotScanned(ds: seq<Dialog>, target: Entity, d: Dialog)
    requires d.entity.Channel? && d.entity.broadcast
    ensures d !in ScanCandidates(ds, target)
  {
    CandidatesSpec(ds, target);
  }

  /** Exclusion is by id, not by name: another group with the target's name
      but a different id is still scanned. */
  lemma SameNameOtherIdScanned(ds: seq<Dialog>, target: Entity, d: Dialog)
    requires d in ds && IsGroup(d) && !(d.entity.Channel? && d.entity.broadcast)
    requires d.entity.id != target.id
    ensures d in ScanCandidates(ds, target)
  {
    CandidatesSpec(ds, target);
  }

  /** User chats are never scanned. */
  lemma UsersNotScanned(ds: seq<Dialog>, target: Entity, d: Dialog)
    requires d.entity.User?
    ensures d !in ScanCandidates(ds, target)
  {
    CandidatesSpec(ds, target);
  }
}

/** Id composition: @GroupId(s) + @ControllerId + @Id joined with '.', or
    no id at all when the method's own id is empty. */
module FullId {
  import opened Strings
  import opened Schema

  /** The full id of an endpoint. Empty segments are kept; nothing is
      normalised, unlike the mask. */
  function ComposeId(groupIds: seq<string>, controllerId: string, methodId: string): (id: Option<string>)
    ensures id.None? <==> IsEmpty(methodId)
  {
    if IsEmpty(methodId) then None
    else Some(Join('.', groupIds + [controllerId, methodId]))
  }

  /** When the id exists, splitting it at '.' gives back every segment, empty
      ones included, provided no segment holds a '.' itself. */
  lemma IdSegments(groupIds: seq<string>, controllerId: string, methodId: string)
    requires !IsEmpty(methodId)
    requires forall k :: 0 <= k < |groupIds| ==> '.' !in groupIds[k]
    requires '.' !in controllerId && '.' !in methodId
    ensures ComposeId(groupIds, controllerId, methodId).Some?
    ensures Split('.', ComposeId(groupIds, controllerId, methodId).value) == groupIds + [controllerId, methodId]
  {
    var parts := groupIds + [controllerId, methodId];
    assert forall k :: 0 <= k < |parts| ==> '.' !in parts[k] by {
      forall k | 0 <= k < |parts| ensures '.' !in parts[k] {
        if k < |groupIds| { assert parts[k] == groupIds[k]; }
      }
    }
    SplitJoin('.', parts);
  }

  /** Examples: an empty method id gives no id; "list" gives "admin.users.list". */
  lemma IdExamples()
    ensures ComposeId(["admin"], "users", "") == None
    ensures ComposeId(["admin"], "users", "list") == Some("admin.users.list")
  {
    assert ["admin"] + ["users", "list"] == ["admin", "users", "list"];
    assert Join('.', ["list"]) == "list";
    assert Join('.', ["users", "list"]) == "users.list";
    assert Join('.', ["admin", "users", "list"]) == "admin.users.list";
    assert !IsEmpty("list");
  }
}

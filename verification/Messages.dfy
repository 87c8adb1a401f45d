/**
  Transaction messages as trees. An authz execution and a v1 governance proposal carry further
  messages, which may fail to unpack; every other message is a leaf.
 */
module Messages {
  import opened Prelude

  type Address = string

  /** The content of a legacy proposal: its type URL and the value the codec cached for it, if any. */
  datatype LegacyContent = LegacyContent(typeURL: string, cached: Option<CachedContent>)

  datatype CachedContent = TextProposal | OtherContent

  datatype Body =
    | SoftwareUpgrade
    | StoreCode
    | ExecLegacyContent(content: Option<LegacyContent>)
    | SubmitProposal(inner: Nested)
    | SubmitLegacyProposal(legacy: Option<LegacyContent>)
    | Exec(inner: Nested)
    | Other(typeURL: string)

  /** A nested message list, if it unpacks. */
  datatype Nested = Unpacked(msgs: seq<Msg>) | NotUnpacked

  /** A message with the accounts that must sign it; None when the codec cannot resolve them. */
  datatype Msg = Msg(signers: Option<seq<Address>>, body: Body)

  const TEXT_PROPOSAL_URL := "/cosmos.gov.v1beta1.TextProposal"

  /** sdk.MsgTypeURL. */
  function TypeURL(msg: Msg): string {
    match msg.body
    case SoftwareUpgrade => "/cosmos.upgrade.v1beta1.MsgSoftwareUpgrade"
    case StoreCode => "/cosmwasm.wasm.v1.MsgStoreCode"
    case ExecLegacyContent(_) => "/cosmos.gov.v1.MsgExecLegacyContent"
    case SubmitProposal(_) => "/cosmos.gov.v1.MsgSubmitProposal"
    case SubmitLegacyProposal(_) => "/cosmos.gov.v1beta1.MsgSubmitProposal"
    case Exec(_) => "/cosmos.authz.v1beta1.MsgExec"
    case Other(url) => url
  }

  // ---------- reachable messages ----------

  /** The messages a filter goes on to look at below m; proposals says whether it enters v1 proposals. */
  function Below(m: Msg, proposals: bool): Nested {
    match m.body
    case Exec(inner) => inner
    case SubmitProposal(inner) => if proposals then inner else Unpacked([])
    case _ => Unpacked([])
  }

  /** The message at the end of a path of positions, one for each level. */
  function At(msgs: seq<Msg>, path: seq<nat>, proposals: bool): Option<Msg>
    decreases |path|
  {
    if path == [] || path[0] >= |msgs| then None
    else
      var m := msgs[path[0]];
      if |path| == 1 then Some(m)
      else
        match Below(m, proposals)
        case NotUnpacked => None
        case Unpacked(inner) => At(inner, path[1..], proposals)
  }

  /** Nothing bad is reachable, and everything on the way unpacks. */
  ghost predicate AllReachable(msgs: seq<Msg>, proposals: bool, bad: Msg -> bool) {
    forall path: seq<nat> ::
      var node := At(msgs, path, proposals);
      node.Some? ==> !bad(node.value) && Below(node.value, proposals).Unpacked?
  }

  /** The same by recursion over the tree. */
  ghost predicate Clean(msgs: seq<Msg>, proposals: bool, bad: Msg -> bool)
    decreases msgs
  {
    msgs == [] || (CleanMsg(msgs[0], proposals, bad) && Clean(msgs[1..], proposals, bad))
  }

  ghost predicate CleanMsg(m: Msg, proposals: bool, bad: Msg -> bool)
    decreases m
  {
    && !bad(m)
    && match Below(m, proposals) {
         case NotUnpacked => false
         case Unpacked(inner) => inner == [] || Clean(inner, proposals, bad)
       }
  }

  /** Recursion and paths agree on every tree. */
  lemma CleanIffReachable(msgs: seq<Msg>, proposals: bool, bad: Msg -> bool)
    ensures Clean(msgs, proposals, bad) <==> AllReachable(msgs, proposals, bad)
  {
    if Clean(msgs, proposals, bad) {
      forall path: seq<nat> | At(msgs, path, proposals).Some?
        ensures var m := At(msgs, path, proposals).value; !bad(m) && Below(m, proposals).Unpacked?
      {
        CleanAt(msgs, path, proposals, bad);
      }
    } else {
      var path := DirtyPath(msgs, proposals, bad);
    }
  }

  lemma {:induction false} CleanElement(msgs: seq<Msg>, k: nat, proposals: bool, bad: Msg -> bool)
    requires Clean(msgs, proposals, bad) && k < |msgs|
    ensures CleanMsg(msgs[k], proposals, bad)
    decreases k
  {
    if k == 0 {
    } else {
      CleanElement(msgs[1..], k - 1, proposals, bad);
    }
  }

  lemma {:induction false} CleanAt(msgs: seq<Msg>, path: seq<nat>, proposals: bool, bad: Msg -> bool)
    requires Clean(msgs, proposals, bad) && At(msgs, path, proposals).Some?
    ensures CleanMsg(At(msgs, path, proposals).value, proposals, bad)
    decreases |path|
  {
    CleanElement(msgs, path[0], proposals, bad);
    if |path| > 1 {
      CleanAt(Below(msgs[path[0]], proposals).msgs, path[1..], proposals, bad);
    }
  }

  ghost predicate Offends(node: Option<Msg>, proposals: bool, bad: Msg -> bool) {
    node.Some? && (bad(node.value) || Below(node.value, proposals).NotUnpacked?)
  }

  /** A tree that is not clean has a path to an offending message. */
  lemma {:induction false} DirtyPath(msgs: seq<Msg>, proposals: bool, bad: Msg -> bool) returns (path: seq<nat>)
    requires !Clean(msgs, proposals, bad)
    ensures Offends(At(msgs, path, proposals), proposals, bad)
    decreases msgs
  {
    if !CleanMsg(msgs[0], proposals, bad) {
      path := DirtyMsg(msgs[0], msgs, proposals, bad);
    } else {
      var rest := DirtyPath(msgs[1..], proposals, bad);
      path := [rest[0] + 1] + rest[1..];
      assert path[1..] == rest[1..];
    }
  }

  lemma {:induction false} DirtyMsg(m: Msg, msgs: seq<Msg>, proposals: bool, bad: Msg -> bool) returns (path: seq<nat>)
    requires msgs != [] && m == msgs[0] && !CleanMsg(m, proposals, bad)
    ensures Offends(At(msgs, path, proposals), proposals, bad)
    decreases m
  {
    if bad(m) || Below(m, proposals).NotUnpacked? {
      path := [0];
    } else {
      var rest := DirtyPath(Below(m, proposals).msgs, proposals, bad);
      path := [0] + rest;
      assert path[1..] == rest;
    }
  }
}

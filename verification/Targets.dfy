/** Which window a command is for: process families and unique addressing. */
module Targets {
  import opened Wrappers

  type Surface = nat
  type Pid = int

  /** A mapped window: its root surface, the process behind it, and its application id. */
  datatype Toplevel = Toplevel(surface: Surface, pid: Pid, appId: Option<string>)

  /** The parent that a process's `stat` file names, if it can be read. */
  type Parents = Pid -> Option<Pid>

  const MAX_DEPTH: nat := 64

  /** The k-th ancestor along valid links; the walk goes no further than process 1. */
  function Ancestor(parents: Parents, pid: Pid, k: nat): Option<Pid> {
    if k == 0 then Some(pid) else
      match Ancestor(parents, pid, k - 1)
      case None => None
      case Some(child) =>
        if child <= 1 then None else
          match parents(child)
          case Some(parent) => if parent <= 0 || parent == child then None else Some(parent)
          case None => None
  }

  /** `root` is `pid` or one of its first 64 ancestors. */
  ghost predicate InFamily(parents: Parents, pid: Pid, root: Pid) {
    pid > 0 && root > 0 && exists k :: 0 <= k <= MAX_DEPTH && Ancestor(parents, pid, k) == Some(root)
  }

  lemma {:induction false} NoAncestorsBeyond(parents: Parents, pid: Pid, k: nat, n: nat)
    requires k < n
    requires Ancestor(parents, pid, k + 1) == None
    ensures Ancestor(parents, pid, n) == None
  {
    if k + 1 < n {
      NoAncestorsBeyond(parents, pid, k, n - 1);
    }
  }

  method PidInFamily(parents: Parents, pid: Pid, rootPid: Pid) returns (result: bool)
    ensures result <==> InFamily(parents, pid, rootPid)
  {
    if pid <= 0 || rootPid <= 0 {
      return false;
    }
    var current := pid;
    var depth := 0;
    while depth < MAX_DEPTH && current > 1
      invariant depth <= MAX_DEPTH
      invariant Ancestor(parents, pid, depth) == Some(current)
      invariant forall k :: 0 <= k < depth ==> Ancestor(parents, pid, k) != Some(rootPid)
      decreases MAX_DEPTH - depth
    {
      if current == rootPid {
        return true;
      }
      var stat := parents(current);
      if stat == None || stat.value <= 0 || stat.value == current {
        forall n | depth < n ensures Ancestor(parents, pid, n) == None {
          NoAncestorsBeyond(parents, pid, depth, n);
        }
        return false;
      }
      current := stat.value;
      depth := depth + 1;
    }
    if current <= 1 {
      forall n | depth < n ensures Ancestor(parents, pid, n) == None {
        NoAncestorsBeyond(parents, pid, depth, n);
      }
    }
    return current == rootPid;
  }

  // Addresses

  /** How a command names its window. A number is what `strtol` made of the digits; nothing
      if other characters followed them. */
  datatype Address =
    | RootPid(number: Option<int>)
    | ClientPid(number: Option<int>)
    | AppId(name: string)

  datatype Refusal = BadNumber | Unknown | Ambiguous

  /** The cast of a `long` to the 32 bits of a `pid_t`. */
  function ToPid(n: int): Pid {
    (n + 0x8000_0000) % 0x1_0000_0000 - 0x8000_0000
  }

  predicate BadAddress(address: Address) {
    !address.AppId? && (address.number == None || address.number.value <= 0)
  }

  ghost predicate Matches(parents: Parents, address: Address, t: Toplevel)
    requires !BadAddress(address)
  {
    match address
    case RootPid(number) => InFamily(parents, t.pid, ToPid(number.value))
    case ClientPid(number) => t.pid == ToPid(number.value)
    case AppId(name) => t.appId == Some(name)
  }

  ghost predicate OnlyMatch(parents: Parents, address: Address, toplevels: seq<Toplevel>, i: nat)
    requires !BadAddress(address)
  {
    && i < |toplevels|
    && Matches(parents, address, toplevels[i])
    && forall j :: 0 <= j < |toplevels| && Matches(parents, address, toplevels[j]) ==> j == i
  }

  /** A window is returned exactly when it is the only match in the list. */
  method ResolveTarget(parents: Parents, toplevels: seq<Toplevel>, address: Address)
    returns (result: Result<nat, Refusal>)
    ensures result == Err(BadNumber) <==> BadAddress(address)
    ensures !BadAddress(address) ==>
              && (forall i: nat :: result == Ok(i) <==> OnlyMatch(parents, address, toplevels, i))
              && (result == Err(Unknown) <==>
                    forall i :: 0 <= i < |toplevels| ==> !Matches(parents, address, toplevels[i]))
  {
    if BadAddress(address) {
      return Err(BadNumber);
    }
    var found, matches := 0, 0;
    for i := 0 to |toplevels|
      invariant matches == 0 ==> forall j :: 0 <= j < i ==> !Matches(parents, address, toplevels[j])
      invariant matches > 0 ==> found < i && Matches(parents, address, toplevels[found])
      invariant matches == 1 ==>
                  forall j :: 0 <= j < i && Matches(parents, address, toplevels[j]) ==> j == found
      invariant matches > 1 ==>
                  exists j, k :: 0 <= j < k < i && Matches(parents, address, toplevels[j])
                                 && Matches(parents, address, toplevels[k])
    {
      var hit := false;
      match address {
        case RootPid(number) => hit := PidInFamily(parents, toplevels[i].pid, ToPid(number.value));
        case ClientPid(number) => hit := toplevels[i].pid == ToPid(number.value);
        case AppId(name) => hit := toplevels[i].appId == Some(name);
      }
      if hit {
        found, matches := i, matches + 1;
      }
    }
    if matches == 0 {
      return Err(Unknown);
    }
    if matches > 1 {
      return Err(Ambiguous);
    }
    return Ok(found);
  }

  // Numbers that do not fit

  const PID_LIMIT: int := 0x8000_0000

  /** The process ids that windows have; 0 stands for a window without a client. */
  predicate WindowPid(pid: Pid) {
    0 <= pid < PID_LIMIT
  }

  /** `/proc` names processes whose ids fit a `pid_t`. */
  ghost predicate ProcessTable(parents: Parents) {
    forall pid :: parents(pid).Some? ==> parents(pid).value < PID_LIMIT
  }

  /** A client number addresses exactly the process it names, unless the cast turns it into
      the id of another one; cast to a negative id it addresses nobody, as it should. */
  lemma PidAddressExactly(parents: Parents, n: int)
    requires n > 0
    ensures (forall t: Toplevel :: WindowPid(t.pid) ==> (Matches(parents, ClientPid(Some(n)), t) <==> t.pid == n))
            <==> n < PID_LIMIT || ToPid(n) < 0
  {
    if n >= PID_LIMIT && ToPid(n) >= 0 {
      var impostor := Toplevel(0, ToPid(n), None);
      assert Matches(parents, ClientPid(Some(n)), impostor) && impostor.pid != n;
    }
  }

  /** A root number addresses exactly the family of the process it names, under the same
      condition; 0 too is the root of no family. */
  lemma RootAddressExactly(parents: Parents, n: int)
    requires n > 0 && ProcessTable(parents)
    ensures (forall t: Toplevel :: WindowPid(t.pid) ==>
               (Matches(parents, RootPid(Some(n)), t) <==> InFamily(parents, t.pid, n)))
            <==> n < PID_LIMIT || ToPid(n) <= 0
  {
    if n >= PID_LIMIT {
      forall t: Toplevel | WindowPid(t.pid) ensures !InFamily(parents, t.pid, n) {
        forall k | 0 <= k <= MAX_DEPTH ensures Ancestor(parents, t.pid, k) != Some(n) {
          AncestorsFit(parents, t.pid, k);
        }
      }
      if ToPid(n) > 0 {
        var impostor := Toplevel(0, ToPid(n), None);
        assert Ancestor(parents, impostor.pid, 0) == Some(ToPid(n));
        assert Matches(parents, RootPid(Some(n)), impostor);
      }
    }
  }

  lemma {:induction false} AncestorsFit(parents: Parents, pid: Pid, k: nat)
    requires ProcessTable(parents) && pid < PID_LIMIT
    ensures Ancestor(parents, pid, k).Some? ==> Ancestor(parents, pid, k).value < PID_LIMIT
  {
    if k > 0 {
      AncestorsFit(parents, pid, k - 1);
    }
  }

  /** 2^32 + 5 reaches the window of process 5, by either form of address. */
  lemma WrappedPidCounterexample(parents: Parents)
    ensures var t := Toplevel(0, 5, None);
            Matches(parents, ClientPid(Some(0x1_0000_0005)), t) && Matches(parents, RootPid(Some(0x1_0000_0005)), t)
  {
    assert Ancestor(parents, 5, 0) == Some(5);
  }

  // What the addresses mean

  /** Each process is the parent of the one before, and the walk neither goes past process 1 nor
      stays where it is. */
  ghost predicate Chain(parents: Parents, path: seq<Pid>) {
    forall i, j :: 0 <= i && j == i + 1 < |path| ==> Link(parents, path[i], path[j])
  }

  predicate Link(parents: Parents, child: Pid, parent: Pid) {
    child > 1 && parents(child) == Some(parent) && parent > 0 && parent != child
  }

  lemma ChainFront(parents: Parents, path: seq<Pid>, k: nat)
    requires Chain(parents, path) && k <= |path|
    ensures Chain(parents, path[..k])
  {
    forall i, j | 0 <= i && j == i + 1 < k ensures Link(parents, path[..k][i], path[..k][j]) {
      assert path[..k][i] == path[i] && path[..k][j] == path[j];
    }
  }

  /** A process belongs to the family of the root exactly if a chain of at most 64 parents leads
      from it to the root. */
  lemma FamilyIsAChain(parents: Parents, pid: Pid, root: Pid)
    ensures InFamily(parents, pid, root)
            <==> pid > 0 && root > 0
                 && exists path :: 1 <= |path| <= 65 && path[0] == pid && path[|path| - 1] == root && Chain(parents, path)
  {
    if InFamily(parents, pid, root) {
      var k :| 0 <= k <= MAX_DEPTH && Ancestor(parents, pid, k) == Some(root);
      var path := PathTo(parents, pid, k);
    }
    if pid > 0 && root > 0 {
      forall path | 1 <= |path| <= 65 && path[0] == pid && path[|path| - 1] == root && Chain(parents, path)
        ensures InFamily(parents, pid, root)
      {
        ChainLeads(parents, path);
      }
    }
  }

  lemma {:induction false} PathTo(parents: Parents, pid: Pid, k: nat) returns (path: seq<Pid>)
    requires Ancestor(parents, pid, k).Some?
    ensures |path| == k + 1 && path[0] == pid && path[k] == Ancestor(parents, pid, k).value && Chain(parents, path)
  {
    if k == 0 {
      path := [pid];
    } else {
      var front := PathTo(parents, pid, k - 1);
      path := front + [Ancestor(parents, pid, k).value];
    }
  }

  lemma {:induction false} ChainLeads(parents: Parents, path: seq<Pid>)
    requires path != [] && Chain(parents, path)
    ensures Ancestor(parents, path[0], |path| - 1) == Some(path[|path| - 1])
    decreases |path|
  {
    if |path| > 1 {
      var front := path[..|path| - 1];
      assert front[|front| - 1] == path[|path| - 2];
      ChainFront(parents, path, |path| - 1);
      ChainLeads(parents, front);
      assert Link(parents, path[|path| - 2], path[|path| - 1]);
    }
  }

  /** A number is that of a window's own process or of the root of its family, a name that of
      its application; numbers have to be positive. */
  lemma AddressMeans(parents: Parents, t: Toplevel, n: nat, name: string)
    requires 0 < n < 0x8000_0000
    ensures Matches(parents, ClientPid(Some(n)), t) <==> t.pid == n
    ensures Matches(parents, RootPid(Some(n)), t) <==> InFamily(parents, t.pid, n)
    ensures Matches(parents, AppId(name), t) <==> t.appId == Some(name)
    ensures BadAddress(ClientPid(None)) && BadAddress(RootPid(None))
    ensures BadAddress(ClientPid(Some(0))) && BadAddress(RootPid(Some(-1)))
    ensures !BadAddress(ClientPid(Some(n))) && !BadAddress(RootPid(Some(n))) && !BadAddress(AppId(name))
  {
  }
}

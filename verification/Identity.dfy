/** Agent identities: lifecycle, capabilities and delegation. */
module Identity {
  import opened Wrappers
  import opened Text

  datatype IdentityStatus = Active | Suspended | Revoked

  // ---------- capabilities ----------

  predicate EndsWith(s: string, suffix: string) {
    |suffix| <= |s| && s[|s| - |suffix|..] == suffix
  }

  /** One granted capability covers a requested one: everything, the same one, or all with its prefix. */
  predicate Covers(cap: string, capability: string) {
    || cap == "*"
    || cap == capability
    || (EndsWith(cap, ":*") && StartsWith(capability, cap[..|cap| - 2] + ":"))
  }

  predicate Grants(capabilities: seq<string>, capability: string) {
    exists i | 0 <= i < |capabilities| :: Covers(capabilities[i], capability)
  }

  /** What an identity may do, and how far it is from an identity that was not delegated. */
  datatype Powers = Powers(capabilities: seq<string>, delegationDepth: nat)

  /** A delegation the parent may make: every capability handed on is one it has. */
  predicate Delegates(parent: Powers, child: Powers) {
    && child.delegationDepth == parent.delegationDepth + 1
    && forall i | 0 <= i < |child.capabilities| :: Grants(parent.capabilities, child.capabilities[i])
  }

  /** If one capability covers another, wildcards included, it covers all that the other covers. */
  lemma CoversTransitive(p: string, q: string, c: string)
    requires Covers(p, q) && Covers(q, c)
    ensures Covers(p, c)
  {
    if p != "*" && p != q {
      var prefix := p[..|p| - 2] + ":";
      assert prefix[|prefix| - 1] == ':' && prefix <= q;
      assert q[|prefix| - 1] == ':';
      if q != "*" && q != c {
        // q is a prefix wildcard: its own ":*" cannot end the prefix of p.
        var prefix' := q[..|q| - 2] + ":";
        assert q[|q| - 2..] == ":*" && q[|q| - 1] == '*';
        assert |prefix| <= |q| - 1;
        assert prefix' == q[..|q| - 1];
        assert prefix <= prefix';
      }
    }
  }

  /** A delegated identity can do nothing its parent cannot. */
  lemma DelegationNarrows(parent: Powers, child: Powers, c: string)
    requires Delegates(parent, child) && Grants(child.capabilities, c)
    ensures Grants(parent.capabilities, c)
  {
    var i :| 0 <= i < |child.capabilities| && Covers(child.capabilities[i], c);
    assert Grants(parent.capabilities, child.capabilities[i]);
    var j :| 0 <= j < |parent.capabilities| && Covers(parent.capabilities[j], child.capabilities[i]);
    CoversTransitive(parent.capabilities[j], child.capabilities[i], c);
  }

  /** Along any chain of delegations the last identity's power is within the first's, and the depth counts the links. */
  lemma {:induction false} ChainNarrows(chain: seq<Powers>)
    requires chain != [] && forall i | 0 <= i < |chain| - 1 :: Delegates(chain[i], chain[i + 1])
    ensures forall c :: Grants(chain[|chain| - 1].capabilities, c) ==> Grants(chain[0].capabilities, c)
    ensures chain[|chain| - 1].delegationDepth == chain[0].delegationDepth + |chain| - 1
  {
    if |chain| <= 1 {
    } else {
      var k := |chain| - 2;
      ChainNarrows(chain[..k + 1]);
      assert Delegates(chain[k], chain[k + 1]);
      forall c | Grants(chain[k + 1].capabilities, c)
        ensures Grants(chain[0].capabilities, c)
      {
        DelegationNarrows(chain[k], chain[k + 1], c);
      }
    }
  }

  // ---------- what a capability text reaches ----------

  /** A capability is granted exactly if the list holds a star, the capability itself, or a prefix of it, colon
      included, with a star behind. */
  lemma GrantsIff(capabilities: seq<string>, capability: string)
    ensures Grants(capabilities, capability) <==>
            exists k | k in capabilities ::
              k == "*" || k == capability || exists p :: k == p + ":*" && p + ":" <= capability
  {
    forall k
      ensures Covers(k, capability) <==>
              k == "*" || k == capability || exists p :: k == p + ":*" && p + ":" <= capability
    {
      CoversIff(k, capability);
    }
    if Grants(capabilities, capability) {
      var i :| 0 <= i < |capabilities| && Covers(capabilities[i], capability);
      assert capabilities[i] in capabilities;
    }
  }

  lemma CoversIff(k: string, capability: string)
    ensures Covers(k, capability) <==>
            k == "*" || k == capability || exists p :: k == p + ":*" && p + ":" <= capability
  {
    if EndsWith(k, ":*") && k[..|k| - 2] + ":" <= capability {
      assert k == k[..|k| - 2] + ":*";
    }
    if p :| k == p + ":*" && p + ":" <= capability {
      assert k[..|k| - 2] == p && k[|k| - 2..] == ":*";
    }
  }

  /** Who holds nothing but one prefix with a star has exactly the capabilities with that prefix, colon included; nobody in a chain
      of delegations from there ever has another. */
  lemma ScopeIsKept(chain: seq<Powers>, p: string, c: string)
    requires chain != [] && forall i | 0 <= i < |chain| - 1 :: Delegates(chain[i], chain[i + 1])
    requires chain[0].capabilities != [] && forall k | k in chain[0].capabilities :: k == p + ":*"
    ensures Grants(chain[0].capabilities, c) <==> p + ":" <= c
    ensures Grants(chain[|chain| - 1].capabilities, c) ==> p + ":" <= c
  {
    var k := p + ":*";
    GrantsIff(chain[0].capabilities, c);
    forall x | k == x + ":*"
      ensures x == p
    {
      assert x == k[..|k| - 2] && p == k[..|k| - 2];
    }
    assert k[|k| - 2] == ':';
    assert k != "*" && p + ":" <= k;
    if p + ":" <= c {
      assert chain[0].capabilities[0] in chain[0].capabilities;
    }
    ChainNarrows(chain);
  }

  // ---------- identities ----------

  class AgentIdentity {
    const did: string
    const sponsor: string
    const capabilities: seq<string>
    const parentDid: Option<string>
    const delegationDepth: nat
    var status: IdentityStatus

    function GetPowers(): Powers {
      Powers(capabilities, delegationDepth)
    }

    constructor (did: string, sponsor: string, capabilities: seq<string>, status: IdentityStatus,
                 parentDid: Option<string>, delegationDepth: nat)
      ensures this.did == did && this.sponsor == sponsor && this.parentDid == parentDid && this.status == status
      ensures GetPowers() == Powers(capabilities, delegationDepth)
    {
      this.did := did;
      this.sponsor := sponsor;
      this.capabilities := capabilities;
      this.status := status;
      this.parentDid := parentDid;
      this.delegationDepth := delegationDepth;
    }

    method HasCapability(capability: string) returns (ok: bool)
      ensures ok <==> Grants(capabilities, capability)
    {
      for i := 0 to |capabilities|
        invariant forall j | 0 <= j < i :: !Covers(capabilities[j], capability)
      {
        var cap := capabilities[i];
        if cap == "*" {
          return true;
        }
        if cap == capability {
          return true;
        }
        if EndsWith(cap, ":*") {
          var prefix := cap[..|cap| - 2];
          if StartsWith(capability, prefix + ":") {
            return true;
          }
        }
      }
      ok := false;
    }

    /** Fails on the first capability this identity does not have itself; `childDid` is the freshly generated did. */
    method Delegate(childDid: string, childCapabilities: seq<string>, childSponsor: Option<string>)
      returns (r: Result<AgentIdentity, string>)
      ensures r.Ok? <==> forall i | 0 <= i < |childCapabilities| :: Grants(capabilities, childCapabilities[i])
      ensures r.Err? ==> r.error in childCapabilities && !Grants(capabilities, r.error)
      ensures r.Ok? ==>
                && fresh(r.value) && r.value.did == childDid && r.value.parentDid == Some(did)
                && r.value.sponsor == GetOr(childSponsor, sponsor) && r.value.status == Active
                && r.value.capabilities == childCapabilities && Delegates(GetPowers(), r.value.GetPowers())
    {
      for i := 0 to |childCapabilities|
        invariant forall j | 0 <= j < i :: Grants(capabilities, childCapabilities[j])
      {
        var ok := HasCapability(childCapabilities[i]);
        if !ok {
          return Err(childCapabilities[i]);
        }
      }
      var child := new AgentIdentity(childDid, GetOr(childSponsor, sponsor), childCapabilities, Active,
                                     Some(did), delegationDepth + 1);
      r := Ok(child);
    }

    /** `false` stands for the thrown error. */
    method Suspend() returns (ok: bool)
      modifies this
      ensures ok == (old(status) != Revoked) && status == if ok then Suspended else old(status)
    {
      if status == Revoked {
        return false;
      }
      status := Suspended;
      ok := true;
    }

    method Revoke()
      modifies this
      ensures status == Revoked
    {
      status := Revoked;
    }

    method Reactivate() returns (ok: bool)
      modifies this
      ensures ok == (old(status) != Revoked) && status == if ok then Active else old(status)
    {
      if status == Revoked {
        return false;
      }
      status := Active;
      ok := true;
    }
  }
}

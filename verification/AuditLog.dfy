/**
  The bounded, hash-chained audit log. The digest is a parameter: what is proved of the log itself holds for
  any digest, what is proved of tampering holds for any injective one.
 */
module AuditLog {
  import opened Wrappers

  datatype Decision = Allow | Deny | Review

  /** What the caller supplies for an entry. */
  datatype Subject = Subject(agentId: string, action: string, decision: Decision, skillAuditMetadata: Option<string>)

  /** What the digest of an entry covers. */
  datatype Payload = Payload(timestamp: string, subject: Subject, previousHash: string)

  datatype AuditEntry = AuditEntry(timestamp: string, subject: Subject, hash: string, previousHash: string)

  type Digest = Payload -> string

  function GenesisHash(): string {
    seq(64, _ => '0')
  }

  function PayloadOf(e: AuditEntry): Payload {
    Payload(e.timestamp, e.subject, e.previousHash)
  }

  function LastHash(anchor: string, entries: seq<AuditEntry>): string {
    if entries == [] then anchor else entries[|entries| - 1].hash
  }

  /** The entry names `previousHash` as its predecessor's and carries its own digest. */
  predicate Follows(digest: Digest, previousHash: string, e: AuditEntry) {
    e.previousHash == previousHash && e.hash == digest(PayloadOf(e))
  }

  /** The entries are chained from `anchor`. */
  predicate Chained(digest: Digest, anchor: string, entries: seq<AuditEntry>) {
    entries == [] ||
    (Chained(digest, anchor, entries[..|entries| - 1]) &&
     Follows(digest, LastHash(anchor, entries[..|entries| - 1]), entries[|entries| - 1]))
  }

  function Anchor(seamHash: Option<string>): string {
    GetOr(seamHash, GenesisHash())
  }

  // ---------- chains ----------

  lemma ChainedAppend(digest: Digest, anchor: string, entries: seq<AuditEntry>, e: AuditEntry)
    requires Chained(digest, anchor, entries) && Follows(digest, LastHash(anchor, entries), e)
    ensures Chained(digest, anchor, entries + [e])
  {
    assert (entries + [e])[..|entries|] == entries;
  }

  lemma {:induction false} ChainedPrefix(digest: Digest, anchor: string, entries: seq<AuditEntry>, k: nat)
    requires Chained(digest, anchor, entries) && k <= |entries|
    ensures Chained(digest, anchor, entries[..k])
  {
    if k < |entries| {
      ChainedPrefix(digest, anchor, entries[..|entries| - 1], k);
      assert entries[..|entries| - 1][..k] == entries[..k];
    } else {
      assert entries[..k] == entries;
    }
  }

  /** What is left when the first `k` entries are dropped is chained from the last hash dropped. */
  lemma {:induction false} ChainedSuffix(digest: Digest, anchor: string, entries: seq<AuditEntry>, k: nat)
    requires Chained(digest, anchor, entries) && k <= |entries|
    ensures Chained(digest, LastHash(anchor, entries[..k]), entries[k..])
  {
    if k == |entries| {
    } else {
      var init, last := entries[..|entries| - 1], entries[|entries| - 1];
      ChainedSuffix(digest, anchor, init, k);
      assert init[..k] == entries[..k];
      assert entries[k..] == init[k..] + [last];
      LastHashOfSuffix(anchor, init, k);
      ChainedAppend(digest, LastHash(anchor, entries[..k]), init[k..], last);
    }
  }

  lemma LastHashOfSuffix(anchor: string, entries: seq<AuditEntry>, k: nat)
    requires k <= |entries|
    ensures LastHash(LastHash(anchor, entries[..k]), entries[k..]) == LastHash(anchor, entries)
  {
    if k == |entries| {
      assert entries[..k] == entries;
    }
  }

  /** Entry by entry: each names the hash of the one before it, the first one the anchor, and carries the digest of its own
      fields. */
  lemma {:induction false} ChainedIff(digest: Digest, anchor: string, entries: seq<AuditEntry>)
    ensures Chained(digest, anchor, entries) <==> forall i | 0 <= i < |entries| :: Linked(digest, anchor, entries, i)
  {
    if entries == [] {
    } else {
      var n := |entries| - 1;
      var init := entries[..n];
      ChainedIff(digest, anchor, init);
      assert forall i | 0 <= i < n :: Linked(digest, anchor, init, i) <==> Linked(digest, anchor, entries, i);
      assert Follows(digest, LastHash(anchor, init), entries[n]) <==> Linked(digest, anchor, entries, n);
    }
  }

  predicate Linked(digest: Digest, anchor: string, entries: seq<AuditEntry>, i: nat)
    requires i < |entries|
  {
    && entries[i].previousHash == (if i == 0 then anchor else entries[i - 1].hash)
    && entries[i].hash == digest(Payload(entries[i].timestamp, entries[i].subject, entries[i].previousHash))
  }

  /** A log nothing was evicted from begins with an entry whose predecessor is named by 64 zeros. */
  lemma FirstFollowsZeros(digest: Digest, entries: seq<AuditEntry>)
    requires entries != [] && Chained(digest, Anchor(None), entries)
    ensures |entries[0].previousHash| == 64 && forall c | c in entries[0].previousHash :: c == '0'
  {
    ChainedIff(digest, Anchor(None), entries);
    assert Linked(digest, Anchor(None), entries, 0);
  }

  /** How many of `n` entries a log bounded by `max` has evicted. */
  function EvictedOf(n: nat, max: nat): nat {
    if n <= max then 0 else n - max
  }

  /** Appending to the retained end of a history and evicting the overflow leaves the retained end of the new one. */
  lemma EvictionStep<T>(history: seq<T>, max: nat, e: T)
    ensures var stored := history[EvictedOf(|history|, max)..] + [e];
            var k := EvictedOf(|history| + 1, max);
            && (|stored| <= max <==> k == 0)
            && (|stored| <= max ==> stored == (history + [e])[k..])
            && (|stored| > max ==> stored[|stored| - max..] == (history + [e])[k..] &&
                                   stored[|stored| - max - 1] == (history + [e])[k - 1])
  {
  }

  lemma LastHashIsStored(anchor: string, history: seq<AuditEntry>, k: nat)
    requires k <= |history|
    ensures LastHash(anchor, history) ==
            if |history[k..]| > 0 then history[k..][|history[k..]| - 1].hash
            else if k == 0 then anchor else history[k - 1].hash
  {
  }

  ghost predicate Injective(digest: Digest) {
    forall p, q :: digest(p) == digest(q) ==> p == q
  }

  /** Under an injective digest the last hash binds the whole log: of two verified logs that end in the same hash,
      the shorter is the end of the longer, and it starts from the hash before that end. */
  lemma {:induction false} LastHashBindsLog(digest: Digest, a: string, short: seq<AuditEntry>, b: string, long: seq<AuditEntry>)
    requires Injective(digest)
    requires Chained(digest, a, short) && Chained(digest, b, long)
    requires 0 < |short| <= |long| && LastHash(a, short) == LastHash(b, long)
    ensures short == long[|long| - |short|..]
    ensures a == LastHash(b, long[..|long| - |short|])
  {
    var short', s := short[..|short| - 1], short[|short| - 1];
    var long', l := long[..|long| - 1], long[|long| - 1];
    EqualHashEqualEntry(digest, LastHash(a, short'), s, LastHash(b, long'), l);
    PrefixOfInit(long, |long| - |short|);
    if short' == [] {
    } else {
      LastHashBindsLog(digest, a, short', b, long');
    }
  }

  lemma EqualHashEqualEntry(digest: Digest, p: string, e: AuditEntry, q: string, f: AuditEntry)
    requires Injective(digest) && Follows(digest, p, e) && Follows(digest, q, f) && e.hash == f.hash
    ensures e == f && p == q
  {
    assert PayloadOf(e) == PayloadOf(f);
  }

  lemma PrefixOfInit<T>(s: seq<T>, k: nat)
    requires k < |s|
    ensures s[..|s| - 1][..k] == s[..k]
    ensures s[..|s| - 1][k..] + [s[|s| - 1]] == s[k..]
  {
  }

  /** Logs of equal length that both verify and end in the same hash are equal and start from the same hash. */
  lemma EqualLastHashEqualLog(digest: Digest, a: string, x: seq<AuditEntry>, b: string, y: seq<AuditEntry>)
    requires Injective(digest)
    requires Chained(digest, a, x) && Chained(digest, b, y)
    requires 0 < |x| == |y| && LastHash(a, x) == LastHash(b, y)
    ensures x == y && a == b
  {
    LastHashBindsLog(digest, a, x, b, y);
  }

  /** Changing, adding, dropping or reordering retained entries without changing the last hash or the length of
      the log makes verification fail, whatever seam is put in front. */
  lemma TamperingIsDetected(digest: Digest, a: string, x: seq<AuditEntry>, b: string, y: seq<AuditEntry>)
    requires Injective(digest) && Chained(digest, a, x)
    requires 0 < |x| == |y| && LastHash(a, x) == LastHash(b, y)
    requires x != y || a != b
    ensures !Chained(digest, b, y)
  {
    if Chained(digest, b, y) {
      EqualLastHashEqualLog(digest, a, x, b, y);
    }
  }

  // ---------- the logger ----------

  class AuditLogger {
    const maxEntries: nat
    const digest: Digest
    var entries: seq<AuditEntry>
    var seamHash: Option<string>

    /** Everything ever logged. */
    ghost var history: seq<AuditEntry>

    /** The log is the end of its history, at most `maxEntries` long, and the seam is the last hash evicted. */
    ghost predicate RetainsEnd()
      reads this
    {
      var k := EvictedOf(|history|, maxEntries);
      entries == history[k..] && seamHash == if k == 0 then None else Some(history[k - 1].hash)
    }

    ghost predicate Valid()
      reads this
    {
      Chained(digest, GenesisHash(), history) && RetainsEnd()
    }

    constructor (maxEntries: nat, digest: Digest)
      ensures Valid() && history == []
      ensures this.maxEntries == maxEntries && this.digest == digest
    {
      this.maxEntries := maxEntries;
      this.digest := digest;
      entries := [];
      seamHash := None;
      history := [];
    }

    /** Logging appends to the history whatever the bound on the log. */
    method Log(subject: Subject, timestamp: string) returns (full: AuditEntry)
      requires Valid()
      modifies this`entries, this`seamHash, this`history
      ensures Valid()
      ensures full.timestamp == timestamp && full.subject == subject
      ensures full.previousHash == if old(history) == [] then GenesisHash() else old(history)[|old(history)| - 1].hash
      ensures full.hash == digest(Payload(timestamp, subject, full.previousHash))
      ensures history == old(history) + [full]
    {
      var previousHash := if |entries| > 0 then entries[|entries| - 1].hash else Anchor(seamHash);
      LastHashIsStored(GenesisHash(), history, EvictedOf(|history|, maxEntries));
      var hash := digest(Payload(timestamp, subject, previousHash));
      full := AuditEntry(timestamp, subject, hash, previousHash);
      ChainedAppend(digest, GenesisHash(), history, full);
      Push(full);
    }

    /** Stores an entry, and evicts the oldest ones if that exceeds the bound. */
    method Push(full: AuditEntry)
      requires RetainsEnd()
      modifies this`entries, this`seamHash, this`history
      ensures RetainsEnd() && history == old(history) + [full]
    {
      EvictionStep(history, maxEntries, full);
      entries := entries + [full];
      history := history + [full];
      if |entries| > maxEntries {
        var overflow := |entries| - maxEntries;
        seamHash := Some(entries[overflow - 1].hash);
        entries := entries[overflow..];
      }
    }

    /** Says whether the stored entries are chained from the seam, in any state, tampered with or not. */
    method Verify() returns (ok: bool)
      ensures ok <==> Chained(digest, Anchor(seamHash), entries)
    {
      for i := 0 to |entries|
        invariant Chained(digest, Anchor(seamHash), entries[..i])
      {
        var entry := entries[i];
        var expectedPrev := if i == 0 then Anchor(seamHash) else entries[i - 1].hash;
        assert entries[..i + 1][..i] == entries[..i];
        if entry.previousHash != expectedPrev || entry.hash != digest(PayloadOf(entry)) {
          if Chained(digest, Anchor(seamHash), entries) {
            ChainedPrefix(digest, Anchor(seamHash), entries, i + 1);
          }
          return false;
        }
      }
      assert entries[..|entries|] == entries;
      ok := true;
    }

    /** However many entries have been evicted, an untampered log verifies. */
    lemma UntamperedLogVerifies()
      requires Valid()
      ensures Chained(digest, Anchor(seamHash), entries)
      ensures |entries| == if |history| <= maxEntries then |history| else maxEntries
    {
      ChainedSuffix(digest, GenesisHash(), history, EvictedOf(|history|, maxEntries));
    }
  }
}

/** The signatures of a damaged build store and the escalation ladder (pkg/buildkit/heal.go). */
module Heal {
  import opened Text

  predicate Alnum(c: char) {
    'a' <= c <= 'z' || 'A' <= c <= 'Z' || '0' <= c <= '9'
  }

  predicate IdChar(c: char) {
    Alnum(c) || c == '.' || c == '_' || c == ':' || c == '+' || c == '-'
  }

  /** A snapshot key as it stands in a message. */
  predicate SnapshotId(s: string) {
    s != [] && Alnum(s[0]) && forall c :: c in s ==> IdChar(c)
  }

  const GONE := " does not exist"
  const GONE_NOT_FOUND := " does not exist: not found"
  const SNAPSHOT := "snapshot "

  /** The tail-anchored shape of the dangling-snapshot message. */
  ghost predicate SnapshotMessage(msg: string, raw: string) {
    && SnapshotId(raw)
    && exists before: string ::
         msg == before + "snapshot " + raw + " does not exist"
         || msg == before + "snapshot " + raw + " does not exist: not found"
  }

  /** A lease ID: 25 base-36 characters, possibly with one of two endings. */
  predicate LeaseId(s: string) {
    || Base36(s, 25)
    || (|s| == 30 && Base36(s[..25], 25) && s[25..] == "-view")
    || (|s| == 34 && Base36(s[..25], 25) && s[25..] == "-variants")
  }

  predicate Base36(s: string, n: nat) {
    |s| == n && forall c :: c in s ==> 'a' <= c <= 'z' || '0' <= c <= '9'
  }

  const LEASE := "lease \""
  const LEASE_TAIL := "\": not found"

  ghost predicate LeaseMessage(msg: string, id: string) {
    LeaseId(id) && exists before: string :: msg == before + "lease \"" + id + "\": not found"
  }

  /** What follows the last `c`, or everything. */
  function AfterLast(s: string, c: char): (out: string)
    ensures c !in out && HasSuffix(s, out)
    ensures c in s ==> |out| < |s| && s[|s| - |out| - 1] == c
  {
    if s == [] then []
    else if s[|s| - 1] == c then []
    else AfterLast(s[..|s| - 1], c) + [s[|s| - 1]]
  }

  lemma {:induction false} AfterLastIs(a: string, c: char, b: string)
    requires c !in b
    ensures AfterLast(a + [c] + b, c) == b
  {
    var s := a + [c] + b;
    if b == [] {
      assert s[|s| - 1] == c;
    } else {
      assert s[|s| - 1] == b[|b| - 1] && b[|b| - 1] in b;
      assert s[..|s| - 1] == a + [c] + b[..|b| - 1];
      AfterLastIs(a, c, b[..|b| - 1]);
      assert b == b[..|b| - 1] + [b[|b| - 1]];
    }
  }

  function CutSuffix(s: string, suffix: string): string
    requires HasSuffix(s, suffix)
  {
    s[..|s| - |suffix|]
  }

  function TrimColon(s: string): string {
    if HasSuffix(s, ":") then s[..|s| - 1] else s
  }

  /** ParseDanglingSnapshot. */
  function ParseDanglingSnapshot(msg: string): Option<string> {
    if HasSuffix(msg, GONE_NOT_FOUND) then SnapshotIn(CutSuffix(msg, GONE_NOT_FOUND))
    else if HasSuffix(msg, GONE) then SnapshotIn(CutSuffix(msg, GONE))
    else None
  }

  /** The key at the end of a message whose tail is cut off. */
  function SnapshotIn(body: string): Option<string> {
    var raw := AfterLast(body, ' ');
    if SnapshotId(raw) && HasSuffix(CutSuffix(body, raw), SNAPSHOT) then Some(TrimColon(raw)) else None
  }

  /** ParseDanglingLease. */
  function ParseDanglingLease(msg: string): Option<string> {
    if !HasSuffix(msg, LEASE_TAIL) then None
    else
      var body := CutSuffix(msg, LEASE_TAIL);
      var id := AfterLast(body, '"');
      if LeaseId(id) && HasSuffix(CutSuffix(body, id), LEASE) then Some(id) else None
  }

  lemma Cut(a: string, b: string)
    ensures HasSuffix(a + b, b) && CutSuffix(a + b, b) == a
  {
  }

  lemma Paste(s: string, suffix: string)
    requires HasSuffix(s, suffix)
    ensures s == CutSuffix(s, suffix) + suffix
  {
  }

  lemma SnapshotInFinds(before: string, raw: string)
    requires SnapshotId(raw)
    ensures SnapshotIn(before + SNAPSHOT + raw) == Some(TrimColon(raw))
  {
    var body := before + SNAPSHOT + raw;
    assert ' ' !in raw;
    assert SNAPSHOT == "snapshot" + [' '];
    assert body == (before + "snapshot") + [' '] + raw;
    AfterLastIs(before + "snapshot", ' ', raw);
    Cut(before + SNAPSHOT, raw);
    Cut(before, SNAPSHOT);
  }

  lemma SnapshotInSound(body: string) returns (before: string, raw: string)
    requires SnapshotIn(body).Some?
    ensures body == before + SNAPSHOT + raw && SnapshotId(raw) && SnapshotIn(body) == Some(TrimColon(raw))
    ensures TrimColon(raw) != ""
  {
    raw := AfterLast(body, ' ');
    Paste(body, raw);
    Paste(CutSuffix(body, raw), SNAPSHOT);
    before := CutSuffix(CutSuffix(body, raw), SNAPSHOT);
  }

  /** The two possible tails exclude each other. */
  lemma OneTail(a: string)
    ensures HasSuffix(a + GONE_NOT_FOUND, GONE_NOT_FOUND) && CutSuffix(a + GONE_NOT_FOUND, GONE_NOT_FOUND) == a
    ensures HasSuffix(a + GONE, GONE) && CutSuffix(a + GONE, GONE) == a && !HasSuffix(a + GONE, GONE_NOT_FOUND)
  {
    var s := a + GONE;
    assert s[|s| - 1] == 't' && GONE_NOT_FOUND[|GONE_NOT_FOUND| - 1] == 'd';
  }

  /** A message is recognised exactly when it has the shape, whatever stands before it, and
      the key is then the one in it, less a trailing colon, and never empty. */
  lemma ParsesSnapshot(msg: string, id: string)
    ensures ParseDanglingSnapshot(msg) == Some(id) <==> exists raw :: SnapshotMessage(msg, raw) && id == TrimColon(raw)
    ensures ParseDanglingSnapshot(msg) == Some(id) ==> id != ""
  {
    hide SnapshotMessage, TrimColon, ParseDanglingSnapshot;
    if ParseDanglingSnapshot(msg) == Some(id) {
      var raw := SnapshotSound(msg);
    }
    if raw :| SnapshotMessage(msg, raw) && id == TrimColon(raw) {
      SnapshotComplete(msg, raw);
    }
  }

  lemma SnapshotSound(msg: string) returns (raw: string)
    requires ParseDanglingSnapshot(msg).Some?
    ensures SnapshotMessage(msg, raw) && ParseDanglingSnapshot(msg) == Some(TrimColon(raw)) && TrimColon(raw) != ""
  {
    hide SnapshotIn, SnapshotId, TrimColon;
    var tail := if HasSuffix(msg, GONE_NOT_FOUND) then GONE_NOT_FOUND else GONE;
    Paste(msg, tail);
    var before;
    before, raw := SnapshotInSound(CutSuffix(msg, tail));
    assert msg == before + SNAPSHOT + raw + tail;
  }

  lemma SnapshotComplete(msg: string, raw: string)
    requires SnapshotMessage(msg, raw)
    ensures ParseDanglingSnapshot(msg) == Some(TrimColon(raw))
  {
    hide SnapshotIn, SnapshotId, TrimColon, HasSuffix, CutSuffix;
    var before: string :| msg == before + "snapshot " + raw + " does not exist"
                          || msg == before + "snapshot " + raw + " does not exist: not found";
    OneTail(before + SNAPSHOT + raw);
    SnapshotInFinds(before, raw);
  }

  lemma LeaseIdPlain(id: string)
    requires LeaseId(id)
    ensures '"' !in id && id != ""
  {
    if !Base36(id, 25) {
      assert id == id[..25] + id[25..];
    }
  }

  lemma ParsesLease(msg: string, id: string)
    ensures ParseDanglingLease(msg) == Some(id) <==> LeaseMessage(msg, id)
    ensures ParseDanglingLease(msg) == Some(id) ==> id != ""
  {
    if ParseDanglingLease(msg) == Some(id) {
      LeaseSound(msg, id);
    }
    if LeaseMessage(msg, id) {
      LeaseComplete(msg, id);
    }
  }

  lemma LeaseSound(msg: string, id: string)
    requires ParseDanglingLease(msg) == Some(id)
    ensures LeaseMessage(msg, id) && id != ""
  {
    hide LeaseId, AfterLast;
    LeaseIdPlain(id);
    var body := CutSuffix(msg, LEASE_TAIL);
    Paste(msg, LEASE_TAIL);
    Paste(body, id);
    Paste(CutSuffix(body, id), LEASE);
    assert msg == CutSuffix(CutSuffix(body, id), LEASE) + LEASE + id + LEASE_TAIL;
  }

  lemma LeaseComplete(msg: string, id: string)
    requires LeaseMessage(msg, id)
    ensures ParseDanglingLease(msg) == Some(id)
  {
    hide LeaseId, AfterLast, HasSuffix, CutSuffix;
    var before: string :| msg == before + "lease \"" + id + "\": not found";
    LeaseIdPlain(id);
    Cut(before + LEASE + id, LEASE_TAIL);
    Cut(before + LEASE, id);
    Cut(before, LEASE);
    assert before + LEASE + id == (before + "lease ") + ['"'] + id;
    AfterLastIs(before + "lease ", '"', id);
  }

  /** HealKeyFromError: the ladder key of a failure, if it is repairable. */
  function HealKey(msg: string): Option<string> {
    var snapshot := ParseDanglingSnapshot(msg);
    if snapshot.Some? then snapshot else ParseDanglingLease(msg)
  }

  /** The key is that of the snapshot signature, or else that of the lease signature; a failure
      with neither has none. */
  lemma HealKeyIs(msg: string, id: string)
    ensures HealKey(msg) == Some(id) <==>
              || (exists raw :: SnapshotMessage(msg, raw) && id == TrimColon(raw))
              || ((forall raw :: !SnapshotMessage(msg, raw)) && LeaseMessage(msg, id))
  {
    hide SnapshotMessage, LeaseMessage, TrimColon, ParseDanglingSnapshot, ParseDanglingLease;
    ParsesSnapshot(msg, id);
    ParsesLease(msg, id);
    if raw :| SnapshotMessage(msg, raw) {
      ParsesSnapshot(msg, TrimColon(raw));
    }
    if ParseDanglingSnapshot(msg).Some? {
      ParsesSnapshot(msg, ParseDanglingSnapshot(msg).value);
    }
  }

  lemma NoKey(msg: string)
    ensures HealKey(msg).None? <==> (forall raw :: !SnapshotMessage(msg, raw)) && forall id :: !LeaseMessage(msg, id)
  {
    hide SnapshotMessage, LeaseMessage, HealKey, TrimColon;
    if HealKey(msg).Some? {
      HealKeyIs(msg, HealKey(msg).value);
    }
    if raw :| SnapshotMessage(msg, raw) {
      HealKeyIs(msg, TrimColon(raw));
    }
    if id :| LeaseMessage(msg, id) && forall raw :: !SnapshotMessage(msg, raw) {
      HealKeyIs(msg, id);
    }
  }

  /** A layer chain ID, at the end of a longer message. */
  lemma ChainIdIsFound(before: string)
    ensures HealKey(before + "snapshot " + "sha256:66462cc862fe" + " does not exist" + ": not found")
            == Some("sha256:66462cc862fe")
  {
    var raw := "sha256:66462cc862fe";
    var msg := before + "snapshot " + raw + " does not exist" + ": not found";
    var tail := " does not exist: not found";
    assert " does not exist" + ": not found" == tail;
    assert msg == before + "snapshot " + raw + tail;
    SomeId(raw);
    hide SnapshotId;
    assert SnapshotMessage(msg, raw);
    HealKeyIs(msg, TrimColon(raw));
    assert raw[|raw| - 1] == 'e';
  }

  lemma SomeId(s: string)
    requires s != [] && 'a' <= s[0] <= 'z' && forall c :: c in s ==> 'a' <= c <= 'z' || '0' <= c <= '9' || c == ':'
    ensures SnapshotId(s)
  {
  }

  /** The lease of a cache record, and of one of its views. */
  lemma LeaseIsFound(before: string)
    ensures ParseDanglingLease(before + "lease \"" + "4igb5uptxddpdjw9lwatd9psk" + "\": not found")
            == Some("4igb5uptxddpdjw9lwatd9psk")
    ensures ParseDanglingLease(before + "lease \"" + "4igb5uptxddpdjw9lwatd9psk-view" + "\": not found")
            == Some("4igb5uptxddpdjw9lwatd9psk-view")
  {
    var id, view := "4igb5uptxddpdjw9lwatd9psk", "4igb5uptxddpdjw9lwatd9psk-view";
    SomeBase36(id, 25);
    assert view == id + "-view";
    assert view[..25] == id && view[25..] == "-view";
    assert LeaseId(id) && LeaseId(view);
    hide LeaseId;
    var msg, msg' := before + "lease \"" + id + "\": not found", before + "lease \"" + view + "\": not found";
    assert LeaseMessage(msg, id) && LeaseMessage(msg', view);
    ParsesLease(msg, id);
    ParsesLease(msg', view);
  }

  lemma SomeBase36(s: string, n: nat)
    requires |s| == n && forall c :: c in s ==> 'a' <= c <= 'z' || '0' <= c <= '9'
    ensures Base36(s, n)
  {
  }

  lemma HealKeyNotEmpty(msg: string)
    ensures HealKey(msg) != Some("")
  {
    ParsesSnapshot(msg, "");
    ParsesLease(msg, "");
  }

  // ---- The ladder ----

  datatype HealAction = HealNone | HealPrune | HealRebuild | HealGiveUp

  /** The action a key is due, given what was last done about it. */
  function NextAction(seen: map<string, HealAction>, id: string): HealAction {
    if id == "" then HealNone
    else if id !in seen then HealPrune
    else
      match seen[id]
      case HealPrune => HealRebuild
      case HealRebuild => HealGiveUp
      case HealGiveUp => HealGiveUp
      case HealNone => HealPrune
  }

  function Remember(seen: map<string, HealAction>, id: string): map<string, HealAction> {
    if id == "" then seen else seen[id := NextAction(seen, id)]
  }

  class Healer {
    var seen: map<string, HealAction>

    constructor ()
      ensures seen == map[]
    {
      seen := map[];
    }

    method NextId(id: string) returns (next: HealAction)
      modifies this
      ensures next == NextAction(old(seen), id) && seen == Remember(old(seen), id)
    {
      if id == "" { return HealNone; }
      next := HealPrune;
      if id in seen {
        match seen[id] {
          case HealPrune => next := HealRebuild;
          case HealRebuild => next := HealGiveUp;
          case HealGiveUp => next := HealGiveUp;
          case HealNone =>
        }
      }
      seen := seen[id := next];
    }

    method Forget(id: string)
      modifies this
      ensures seen == old(seen) - {id}
    {
      seen := seen - {id};
    }
  }

  /** The n-th action of the ladder: prune, rebuild, then give up for good. */
  function Ladder(n: nat): HealAction {
    if n == 0 then HealPrune else if n == 1 then HealRebuild else HealGiveUp
  }
}

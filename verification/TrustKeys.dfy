/**
 Key tables of a trust root: which defects are reported while a table is built, when a key
 may sign, and what a table without defects guarantees.
 */
module TrustKeys {
  import opened Basics
  import opened TrustTypes
  import KeySupersession

  type KeyTable = map<string, KeyEntry>

  function PublicKey(entry: KeyEntry): Option<string> {
    if entry.material.Some? then entry.material.value.publicKey else None
  }

  function Fingerprint(c: Crypto, entry: KeyEntry): Option<string> {
    if entry.material.Some? then c.fingerprint(entry.material.value) else None
  }

  function PublicKeys(entries: seq<Option<KeyEntry>>): set<string> {
    set e | e in entries && e.Some? && PublicKey(e.value).Some? :: PublicKey(e.value).value
  }

  /** A later entry with the same identifier replaces an earlier one. */
  function TableOf(entries: seq<Option<KeyEntry>>): KeyTable {
    if entries == [] then map[]
    else
      var n := |entries| - 1;
      var table := TableOf(entries[..n]);
      if entries[n].Some? && entries[n].value.id.Some?
      then table[entries[n].value.id.value := entries[n].value]
      else table
  }

  function EntryFailures(c: Crypto, before: seq<Option<KeyEntry>>, entry: Option<KeyEntry>): set<Reason> {
    if entry.None? then {KeyMalformed}
    else
      var e := entry.value;
      (if !c.validKey(PublicKey(e)) then {KeyMalformed} else {}) +
      (if e.id.None? || Fingerprint(c, e) != e.id then {KeyIdMismatch} else {}) +
      (if PublicKey(e).Some? && PublicKey(e).value in PublicKeys(before) then {DuplicateKey} else {}) +
      (if e.id.Some? && e.id.value in TableOf(before) then {DuplicateKey} else {})
  }

  function KeyFailures(c: Crypto, entries: seq<Option<KeyEntry>>): set<Reason> {
    if entries == [] then {}
    else
      var n := |entries| - 1;
      KeyFailures(c, entries[..n]) + EntryFailures(c, entries[..n], entries[n])
  }

  /** The records the supersession rules look at. */
  function Records(table: KeyTable): KeySupersession.Keys {
    map id | id in table :: table[id].record
  }

  /** Each identifier is the fingerprint of its own valid key, and no identifier or public key repeats. */
  ghost predicate KeysSound(c: Crypto, entries: seq<Option<KeyEntry>>) {
    && (forall i :: 0 <= i < |entries| ==>
          && entries[i].Some?
          && c.validKey(PublicKey(entries[i].value))
          && entries[i].value.id.Some?
          && Fingerprint(c, entries[i].value) == entries[i].value.id)
    && (forall i, j :: 0 <= i < j < |entries| ==>
          && entries[i].value.id != entries[j].value.id
          && (PublicKey(entries[i].value).Some? ==> PublicKey(entries[i].value) != PublicKey(entries[j].value)))
  }

  ghost predicate HasId(entries: seq<Option<KeyEntry>>, id: string) {
    exists i :: 0 <= i < |entries| && entries[i].Some? && entries[i].value.id == Some(id)
  }

  lemma {:induction false} TableKeys(entries: seq<Option<KeyEntry>>)
    ensures forall id :: id in TableOf(entries) <==> HasId(entries, id)
    ensures forall id :: id in TableOf(entries) ==>
            Some(TableOf(entries)[id]) in entries && TableOf(entries)[id].id == Some(id)
  {
    if entries == [] {
    } else {
      var n := |entries| - 1;
      TableKeys(entries[..n]);
      forall id ensures HasId(entries, id) <==>
        HasId(entries[..n], id) || (entries[n].Some? && entries[n].value.id == Some(id)) {
        if HasId(entries[..n], id) {
          var i :| 0 <= i < n && entries[..n][i].Some? && entries[..n][i].value.id == Some(id);
          assert entries[i] == entries[..n][i];
        }
      }
      assert forall e :: e in entries <==> e in entries[..n] || e == entries[n];
    }
  }

  lemma EntrySound(c: Crypto, before: seq<Option<KeyEntry>>, entry: Option<KeyEntry>)
    requires KeysSound(c, before)
    ensures EntryFailures(c, before, entry) == {} <==> KeysSound(c, before + [entry])
  {
    TableKeys(before);
    var all := before + [entry];
    if entry.Some? && EntryFailures(c, before, entry) == {} {
      var e := entry.value;
      assert c.validKey(PublicKey(e)) && e.id.Some? && Fingerprint(c, e) == e.id;
      forall i | 0 <= i < |before|
        ensures before[i].value.id != e.id &&
                (PublicKey(before[i].value).Some? ==> PublicKey(before[i].value) != PublicKey(e))
      {
        assert before[i] in before;
      }
    }
    if KeysSound(c, all) {
      assert all[|before|] == entry;
      forall i | 0 <= i < |before| ensures all[i] == before[i] {
      }
    }
  }

  /** Building the table reports nothing exactly when the keys are sound. */
  lemma {:induction false} NoKeyFailures(c: Crypto, entries: seq<Option<KeyEntry>>)
    ensures KeyFailures(c, entries) == {} <==> KeysSound(c, entries)
  {
    if entries == [] {
    } else {
      var n := |entries| - 1;
      NoKeyFailures(c, entries[..n]);
      assert entries == entries[..n] + [entries[n]];
      if KeysSound(c, entries) {
        assert forall i :: 0 <= i < n ==> entries[..n][i] == entries[i];
        assert KeysSound(c, entries[..n]);
      }
      if KeysSound(c, entries[..n]) {
        EntrySound(c, entries[..n], entries[n]);
      }
    }
  }

  /** In a sound table every key is filed under its own fingerprint. */
  lemma FiledUnderFingerprint(c: Crypto, entries: seq<Option<KeyEntry>>, id: string)
    requires KeysSound(c, entries) && id in TableOf(entries)
    ensures Fingerprint(c, TableOf(entries)[id]) == Some(id)
  {
    TableKeys(entries);
  }

  // ----- eligibility -----

  function Ineligible(entry: KeyEntry, sequence: int, time: int): Option<Reason> {
    var r := entry.record;
    if r.validFrom.None? || r.validFrom.value > sequence then Some(KeyNotYetValid)
    else if r.status == KeySupersession.Retired then Some(KeyRetired)
    else if r.status == KeySupersession.Revoked then
      if !r.revocation.Effective? then Some(KeyRevoked)
      else if (r.revocation.sequence.Some? && r.revocation.sequence.value <= sequence) ||
              (entry.revokedAt.Some? && entry.revokedAt.value <= time)
      then Some(KeyRevoked)
      else None
    else None
  }

  /** The key has started, is not retired, and any revocation is recorded and still ahead. */
  ghost predicate Usable(entry: KeyEntry, sequence: int, time: int) {
    var r := entry.record;
    && r.validFrom.Some? && r.validFrom.value <= sequence
    && r.status != KeySupersession.Retired
    && (r.status == KeySupersession.Revoked ==>
          && r.revocation.Effective?
          && (r.revocation.sequence.Some? ==> sequence < r.revocation.sequence.value)
          && (entry.revokedAt.Some? ==> time < entry.revokedAt.value))
  }

  lemma EligibleIff(entry: KeyEntry, sequence: int, time: int)
    ensures Ineligible(entry, sequence, time).None? <==> Usable(entry, sequence, time)
  {
  }

  /** A key is usable during one window: what holds at both ends holds between them. */
  lemma UsableInterval(entry: KeyEntry, s1: int, t1: int, s2: int, t2: int, sequence: int, time: int)
    requires s1 <= sequence <= s2 && t1 <= time <= t2
    requires Ineligible(entry, s1, t1).None? && Ineligible(entry, s2, t2).None?
    ensures Ineligible(entry, sequence, time).None?
  {
  }

  /** Waiting never makes a retired or revoked key usable again. */
  lemma IneligibilityLasts(entry: KeyEntry, sequence: int, time: int, sequence': int, time': int)
    requires sequence <= sequence' && time <= time'
    requires Ineligible(entry, sequence, time) in {Some(KeyRetired), Some(KeyRevoked)}
    ensures Ineligible(entry, sequence', time') == Ineligible(entry, sequence, time)
  {
  }
}

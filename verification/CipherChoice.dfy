/** The server's choice of a cipher suite, with equal-preference groups. */
module CipherChoice {
  import opened Bits
  import opened Parsing

  datatype Cipher = Cipher(id: nat, minVersion: nat, maxVersion: nat, mkey: nat, auth: nat)

  /** What the connection admits: protocol version, key exchanges, authentications. */
  datatype Policy = Policy(version: nat, maskKey: nat, maskAuth: nat)

  predicate Supported(c: Cipher, p: Policy) {
    c.minVersion <= p.version <= c.maxVersion && And(c.mkey, p.maskKey) != 0 && And(c.auth, p.maskAuth) != 0
  }

  /** A list of ciphers; `inGroup[i]` says that cipher i is not the last of its group. Without flags all are groups. */
  datatype Preferences = Preferences(ciphers: seq<Cipher>, inGroup: Option<seq<bool>>) {
    predicate Valid() {
      inGroup.Some? ==> |inGroup.value| == |ciphers|
    }

    predicate Continues(i: nat)
      requires Valid() && i < |ciphers|
    {
      inGroup.Some? && inGroup.value[i]
    }

    /** Whether positions i <= j belong to one group. */
    predicate Together(i: nat, j: nat)
      requires Valid() && j <= |ciphers|
    {
      forall k :: i <= k < j ==> Continues(k)
    }

    /** The last cipher of the list ends its group, as the list builder makes sure. */
    predicate Terminated()
      requires Valid()
    {
      ciphers != [] ==> !Continues(|ciphers| - 1)
    }
  }

  function IndexIn(allow: seq<Cipher>, c: Cipher): (i: nat)
    requires c in allow
    ensures i < |allow| && allow[i] == c && c !in allow[..i]
  {
    if allow[0] == c then 0 else IndexIn(allow[1..], c) + 1
  }

  lemma IndexIsFirst(allow: seq<Cipher>, i: nat)
    requires i < |allow|
    ensures IndexIn(allow, allow[i]) <= i
  {
  }

  ghost predicate Eligible(prio: Preferences, allow: seq<Cipher>, p: Policy, i: nat) {
    i < |prio.ciphers| && Supported(prio.ciphers[i], p) && prio.ciphers[i] in allow
  }

  /** i is the first eligible position. */
  ghost predicate FirstEligible(prio: Preferences, allow: seq<Cipher>, p: Policy, i: nat) {
    Eligible(prio, allow, p, i) && forall j :: 0 <= j < i ==> !Eligible(prio, allow, p, j)
  }

  /** j is an eligible position in the group of position i. */
  ghost predicate Rival(prio: Preferences, allow: seq<Cipher>, p: Policy, i: nat, j: nat)
    requires prio.Valid()
  {
    i <= j && Eligible(prio, allow, p, j) && prio.Together(i, j)
  }

  /** No eligible cipher of the group of position i comes before c in the allow list. */
  ghost predicate Leads(prio: Preferences, allow: seq<Cipher>, p: Policy, i: nat, c: Cipher)
    requires prio.Valid() && c in allow
  {
    forall k: nat :: Rival(prio, allow, p, i, k) ==> IndexIn(allow, c) <= IndexIn(allow, prio.ciphers[k])
  }

  /** Of the eligible ciphers in the first group that has any, the one that comes first in the allow list. */
  ghost predicate Best(prio: Preferences, allow: seq<Cipher>, p: Policy, c: Cipher)
    requires prio.Valid()
  {
    c in allow
    && exists i: nat, j: nat ::
         FirstEligible(prio, allow, p, i) && Rival(prio, allow, p, i, j) && prio.ciphers[j] == c
           && Leads(prio, allow, p, i, c)
  }

  ghost predicate NoneEligible(prio: Preferences, allow: seq<Cipher>, p: Policy) {
    forall i :: 0 <= i < |prio.ciphers| ==> !Eligible(prio, allow, p, i)
  }

  /** The first eligible cipher is in a last group that nothing ends. */
  ghost predicate LeftOpen(prio: Preferences, allow: seq<Cipher>, p: Policy)
    requires prio.Valid()
  {
    exists i: nat :: FirstEligible(prio, allow, p, i) && prio.Together(i, |prio.ciphers|)
  }

  /** sk_SSL_CIPHER_find */
  method Find(allow: seq<Cipher>, c: Cipher) returns (found: bool, index: nat)
    ensures found <==> c in allow
    ensures found ==> index == IndexIn(allow, c)
  {
    index := 0;
    while index < |allow|
      invariant index <= |allow| && c !in allow[..index]
    {
      if allow[index] == c {
        IndexIsFirst(allow, index);
        return true, index;
      }
      index := index + 1;
    }
    return false, 0;
  }

  /** The loop of ssl3_choose_cipher. */
  method Scan(prio: Preferences, allow: seq<Cipher>, p: Policy) returns (choice: Option<Cipher>)
    requires prio.Valid()
    ensures choice.None? <==> NoneEligible(prio, allow, p) || LeftOpen(prio, allow, p)
    ensures choice.Some? ==> Best(prio, allow, p, choice.value)
  {
    hide And, Best, IndexIn, Supported;
    var groupMin := -1;
    ghost var first, best: nat := 0, 0;
    var i := 0;
    while i < |prio.ciphers|
      invariant 0 <= i <= |prio.ciphers| && -1 <= groupMin < |allow|
      invariant groupMin == -1 ==> forall j :: 0 <= j < i ==> !Eligible(prio, allow, p, j)
      invariant groupMin != -1 ==>
                  first <= best < i && FirstEligible(prio, allow, p, first) && prio.Together(first, i)
                  && Rival(prio, allow, p, first, best) && groupMin == IndexIn(allow, prio.ciphers[best])
                  && forall k: nat :: k < i && Rival(prio, allow, p, first, k) ==>
                                        groupMin <= IndexIn(allow, prio.ciphers[k])
    {
      var c := prio.ciphers[i];
      var found, index := Find(allow, c);
      if Supported(c, p) && found {
        assert Eligible(prio, allow, p, i);
        if groupMin == -1 {
          first := i;
        }
        assert Rival(prio, allow, p, first, i);
        if prio.Continues(i) {
          if groupMin == -1 || groupMin > index {
            groupMin := index;
            best := i;
          }
        } else {
          if groupMin != -1 && groupMin < index {
            index := groupMin;
          } else {
            best := i;
          }
          Ends(prio, allow, p, first, best, i);
          return Some(allow[index]);
        }
      }
      if !prio.Continues(i) && groupMin != -1 {
        Ends(prio, allow, p, first, best, i);
        return Some(allow[groupMin]);
      }
      i := i + 1;
    }
    return None;
  }

  /** At the end of the first group that has an eligible cipher the best so far is the best. */
  lemma Ends(prio: Preferences, allow: seq<Cipher>, p: Policy, first: nat, best: nat, i: nat)
    requires prio.Valid() && first <= best <= i < |prio.ciphers| && !prio.Continues(i)
    requires FirstEligible(prio, allow, p, first) && Rival(prio, allow, p, first, best)
    requires forall k: nat :: k <= i && Rival(prio, allow, p, first, k) ==>
                           IndexIn(allow, prio.ciphers[best]) <= IndexIn(allow, prio.ciphers[k])
    ensures Best(prio, allow, p, prio.ciphers[best])
    ensures !NoneEligible(prio, allow, p) && !LeftOpen(prio, allow, p)
  {
    forall k: nat | Rival(prio, allow, p, first, k) ensures k <= i {
    }
    forall j: nat | FirstEligible(prio, allow, p, j) ensures j == first {
      assert Eligible(prio, allow, p, j) && Eligible(prio, allow, p, first);
    }
  }

  /** For a list whose last group is ended, nothing is found only if nothing is eligible. */
  lemma TerminatedIsNotLeftOpen(prio: Preferences, allow: seq<Cipher>, p: Policy)
    requires prio.Valid() && prio.Terminated()
    ensures !LeftOpen(prio, allow, p)
  {
    forall i: nat | FirstEligible(prio, allow, p, i) ensures !prio.Together(i, |prio.ciphers|) {
      assert !prio.Continues(|prio.ciphers| - 1);
    }
  }

  /** There is only one best cipher. */
  lemma BestIsUnique(prio: Preferences, allow: seq<Cipher>, p: Policy, c: Cipher, d: Cipher)
    requires prio.Valid() && Best(prio, allow, p, c) && Best(prio, allow, p, d)
    ensures c == d
  {
    var i: nat, j: nat :|
      FirstEligible(prio, allow, p, i) && Rival(prio, allow, p, i, j) && prio.ciphers[j] == c
        && Leads(prio, allow, p, i, c);
    var i': nat, j': nat :|
      FirstEligible(prio, allow, p, i') && Rival(prio, allow, p, i', j') && prio.ciphers[j'] == d
        && Leads(prio, allow, p, i', d);
    assert i == i' by {
      assert Eligible(prio, allow, p, i) && Eligible(prio, allow, p, i');
    }
    assert IndexIn(allow, c) == IndexIn(allow, d);
  }

  /** A bit that both words have. */
  ghost predicate Share(a: nat, b: nat) {
    exists k: nat :: BitAt(a, k) && BitAt(b, k)
  }

  lemma {:induction false} SomeBit(w: nat) returns (k: nat)
    requires w != 0
    ensures BitAt(w, k)
  {
    if w % 2 == 1 {
      k := 0;
    } else {
      k := SomeBit(w / 2);
      k := k + 1;
    }
  }

  lemma ShareIff(a: nat, b: nat)
    ensures And(a, b) != 0 <==> Share(a, b)
  {
    hide And, BitAt;
    if And(a, b) != 0 {
      var k := SomeBit(And(a, b));
      AndBits(a, b, k);
    } else if Share(a, b) {
      var k: nat :| BitAt(a, k) && BitAt(b, k);
      AndBits(a, b, k);
      ZeroBits(k);
    }
  }

  /** The connection can use the cipher: its version, one of its key exchanges, one of its authentications. */
  ghost predicate Usable(c: Cipher, p: Policy) {
    c.minVersion <= p.version && p.version <= c.maxVersion && Share(c.mkey, p.maskKey) && Share(c.auth, p.maskAuth)
  }

  lemma UsableIff(c: Cipher, p: Policy)
    ensures Supported(c, p) <==> Usable(c, p)
  {
    hide And, Share;
    ShareIff(c.mkey, p.maskKey);
    ShareIff(c.auth, p.maskAuth);
  }

  /**
   * The chosen cipher is one that both sides list and the connection can use, and none that is either was passed
   * over: one that stands before it in the priority list is in its group, and of those in its group it comes first
   * in the other list.
   */
  lemma ChosenIsUsable(prio: Preferences, allow: seq<Cipher>, p: Policy, c: Cipher)
    requires prio.Valid() && Best(prio, allow, p, c)
    ensures c in allow && c in prio.ciphers && Usable(c, p)
    ensures exists j: nat :: j < |prio.ciphers| && prio.ciphers[j] == c && forall k: nat ::
              k < |prio.ciphers| && Usable(prio.ciphers[k], p) && prio.ciphers[k] in allow ==>
                (k < j ==> prio.Together(k, j))
                && (prio.Together(k, j) && prio.Together(j, k) ==> IndexIn(allow, c) <= IndexIn(allow, prio.ciphers[k]))
  {
    hide And, Usable, Share, IndexIn, Supported;
    var i: nat, j: nat :|
      FirstEligible(prio, allow, p, i) && Rival(prio, allow, p, i, j) && prio.ciphers[j] == c
      && Leads(prio, allow, p, i, c);
    UsableIff(c, p);
    forall k: nat | k < |prio.ciphers| && Usable(prio.ciphers[k], p) && prio.ciphers[k] in allow
      ensures k < j ==> prio.Together(k, j)
      ensures prio.Together(k, j) && prio.Together(j, k) ==> IndexIn(allow, c) <= IndexIn(allow, prio.ciphers[k])
    {
      UsableIff(prio.ciphers[k], p);
      assert Eligible(prio, allow, p, k);
      assert i <= k;
      if prio.Together(j, k) {
        assert Rival(prio, allow, p, i, k);
      }
    }
  }

  /** Nothing is chosen from an ended list only if no cipher that both sides list can be used. */
  lemma NoneIsUsable(prio: Preferences, allow: seq<Cipher>, p: Policy)
    ensures NoneEligible(prio, allow, p) <==> forall k: nat ::
              k < |prio.ciphers| && prio.ciphers[k] in allow ==> !Usable(prio.ciphers[k], p)
  {
    hide Usable, Supported;
    forall k: nat | k < |prio.ciphers|
      ensures Eligible(prio, allow, p, k) <==> prio.ciphers[k] in allow && Usable(prio.ciphers[k], p)
    {
      UsableIff(prio.ciphers[k], p);
    }
  }

  /** ssl3_choose_cipher: the server's list, or without that option the client's, has priority. */
  method ChooseCipher(client: Option<seq<Cipher>>, server: Preferences, serverPreference: bool, p: Policy)
    returns (choice: Option<Cipher>)
    requires server.Valid()
    ensures client.None? ==> choice.None?
    ensures client.Some? ==>
              var prio := if serverPreference then server else Preferences(client.value, None);
              var allow := if serverPreference then client.value else server.ciphers;
              (choice.None? <==> NoneEligible(prio, allow, p) || LeftOpen(prio, allow, p))
              && (server.Terminated() && choice.None? ==> NoneEligible(prio, allow, p))
              && (choice.Some? ==> Best(prio, allow, p, choice.value))
  {
    if client.None? {
      return None;
    }
    var prio, allow := server, client.value;
    if !serverPreference {
      prio, allow := Preferences(client.value, None), server.ciphers;
    }
    if server.Terminated() {
      TerminatedIsNotLeftOpen(prio, allow, p);
    }
    choice := Scan(prio, allow, p);
  }
}

/** What the conditions on histories say about the order of events: whoever reaches the
    application, or adds a key, was preceded by the right events and no others. */
module HistoryLaws {
  import opened Words
  import opened Session
  import opened Transport
  import opened Provision
  import KeyStore

  // ---- handshakes --------------------------------------------------------------------------

  /** None of these events between two places. */
  ghost predicate NoneOf(t: seq<Event>, from: int, to: int, activated: bool, m1: bool, m3: bool)
    requires 0 <= from && to <= |t|
  {
    forall m :: from <= m < to ==>
      !(activated && t[m].Activated?) && !(m1 && t[m].M1Accepted?) && !(m3 && t[m].M3Accepted?)
  }

  /** One first message at j and nothing that counts since. */
  ghost predicate OneM1(t: seq<Event>, n: nat, j: nat)
    requires n <= |t|
  {
    j < n && t[j].M1Accepted? && NoneOf(t, j + 1, n, true, true, true)
  }

  /** A first message at j, a third at k, nothing else that counts around them. */
  ghost predicate M1ThenM3(t: seq<Event>, n: nat, j: nat, k: nat)
    requires n <= |t|
  {
    && j < k < n && t[j].M1Accepted? && t[k].M3Accepted?
    && NoneOf(t, j + 1, n, true, true, false) && NoneOf(t, j + 1, k, false, false, true)
    && NoneOf(t, k + 1, n, false, false, true)
  }

  lemma LastCounted(t: seq<Event>, n: nat)
    requires 0 < n <= |t|
    ensures var before, e := Accepted(t[..n - 1]), t[n - 1];
            Accepted(t[..n]) == match e
                                case Activated => (0, 0)
                                case M1Accepted => (before.0 + 1, before.1)
                                case M3Accepted => (before.0, before.1 + 1)
                                case _ => before
  {
    assert t[..n][..n - 1] == t[..n - 1];
  }

  lemma {:induction false} FindM1(t: seq<Event>, n: nat) returns (j: nat)
    requires n <= |t| && Accepted(t[..n]) == (1, 0) && Safe(t)
    ensures OneM1(t, n, j)
    decreases n
  {
    if n == 0 {
      assert false;
    } else {
      LastCounted(t, n);
      if t[n - 1].M1Accepted? {
        j := n - 1;
      } else {
        j := FindM1(t, n - 1);
      }
    }
  }

  /** A third message is never counted without a first. */
  lemma {:induction false} ThirdNeedsFirst(t: seq<Event>, n: nat)
    requires n <= |t| && Safe(t)
    ensures Accepted(t[..n]).1 > 0 ==> Accepted(t[..n]).0 > 0
    decreases n
  {
    if n == 0 {
    } else {
      LastCounted(t, n);
      ThirdNeedsFirst(t, n - 1);
    }
  }

  lemma {:induction false} FindBoth(t: seq<Event>, n: nat) returns (j: nat, k: nat)
    requires n <= |t| && Accepted(t[..n]) == (1, 1) && Safe(t)
    ensures M1ThenM3(t, n, j, k)
    decreases n
  {
    if n == 0 {
      assert false;
    } else {
      LastCounted(t, n);
      ThirdNeedsFirst(t, n - 1);
      if t[n - 1].M3Accepted? {
        k := n - 1;
        j := FindM1(t, n - 1);
      } else {
        j, k := FindBoth(t, n - 1);
      }
    }
  }

  /** The application's handler ran: one M1 and then one M3 were accepted before it, no
      other of either, and no activation in between. */
  lemma HandlerAfterHandshake(t: seq<Event>, i: nat)
    requires Safe(t) && i < |t| && t[i].HandlerRan?
    ensures exists j, k :: 0 <= j < k < i && t[j].M1Accepted? && t[k].M3Accepted?
              && (forall m :: j < m < i ==>
                    !t[m].Activated? && !t[m].M1Accepted? && (m != k ==> !t[m].M3Accepted?))
  {
    var j, k := FindBoth(t, i);
    assert 0 <= j < k < i && t[j].M1Accepted? && t[k].M3Accepted?;
  }

  /** M3 was accepted: one M1 before it, nothing that counts in between. */
  lemma ThirdAfterFirst(t: seq<Event>, i: nat)
    requires Safe(t) && i < |t| && t[i].M3Accepted?
    ensures exists j :: 0 <= j < i && t[j].M1Accepted?
              && (forall m :: j < m < i ==> !t[m].Activated? && !t[m].M1Accepted? && !t[m].M3Accepted?)
  {
    var j := FindM1(t, i);
    assert 0 <= j < i && t[j].M1Accepted?;
  }

  // ---- provisioning --------------------------------------------------------------------------

  ghost predicate NoArming(t: seq<Event>, from: int, to: int)
    requires 0 <= from && to <= |t|
  {
    forall m :: from <= m < to ==> !t[m].Armed?
  }

  lemma LastSince(t: seq<Event>, n: nat)
    requires 0 < n <= |t|
    ensures SinceArming(t[..n]) == SinceStep(SinceArming(t[..n - 1]), t[n - 1])
  {
    assert t[..n][..n - 1] == t[..n - 1];
  }

  lemma {:induction false} FindArmed(t: seq<Event>, n: nat) returns (a: nat)
    requires n <= |t| && SinceArming(t[..n]).armed
    ensures a < n && t[a].Armed? && NoArming(t, a + 1, n)
    decreases n
  {
    if n == 0 {
      assert false;
    } else {
      LastSince(t, n);
      if t[n - 1].Armed? {
        a := n - 1;
      } else {
        a := FindArmed(t, n - 1);
      }
    }
  }

  lemma {:induction false} FindWindow(t: seq<Event>, n: nat) returns (w: nat)
    requires n <= |t| && SinceArming(t[..n]).isOpen
    ensures w < n && NoArming(t, w, n)
    ensures t[w] == WindowOpened(SinceArming(t[..n]).secret, SinceArming(t[..n]).deadline)
    decreases n
  {
    if n == 0 {
      assert false;
    } else {
      LastSince(t, n);
      if t[n - 1].WindowOpened? {
        w := n - 1;
      } else {
        w := FindWindow(t, n - 1);
      }
    }
  }

  lemma {:induction false} FindDeferred(t: seq<Event>, n: nat) returns (d: nat)
    requires n <= |t| && SinceArming(t[..n]).deferrals > 0
    ensures d < n && NoArming(t, d, n)
    ensures t[d] == Deferred(SinceArming(t[..n]).sig, SinceArming(t[..n]).transcript)
    decreases n
  {
    if n == 0 {
      assert false;
    } else {
      LastSince(t, n);
      if t[n - 1].Deferred? {
        d := n - 1;
      } else {
        d := FindDeferred(t, n - 1);
      }
    }
  }

  lemma {:induction false} FindAttempt(t: seq<Event>, n: nat) returns (e: nat)
    requires n <= |t| && SinceArming(t[..n]).attempts > 0
    ensures e < n && NoArming(t, e, n)
    ensures t[e] == Attempted(SinceArming(t[..n]).cmd, SinceArming(t[..n]).now)
    decreases n
  {
    if n == 0 {
      assert false;
    } else {
      LastSince(t, n);
      if t[n - 1].Attempted? {
        e := n - 1;
      } else {
        e := FindAttempt(t, n - 1);
      }
    }
  }

  /** What was true of the arming at n is still true where no arming came between. */
  lemma {:induction false} StaysArmed(t: seq<Event>, n: nat, i: nat)
    requires n <= i <= |t| && NoArming(t, n, i)
    ensures SinceArming(t[..n]).armed ==> SinceArming(t[..i]).armed
    ensures SinceArming(t[..n]).isOpen ==> SinceArming(t[..i]).isOpen
    decreases i
  {
    if n == i {
    } else {
      LastSince(t, i);
      StaysArmed(t, n, i - 1);
    }
  }

  lemma AllowedAt(c: Crypto, t: seq<Event>, n: nat)
    requires ProvisionSafe(c, t) && n < |t|
    ensures Allowed(c, SinceArming(t[..n]), t[n])
  {
    hide Allowed, SinceArming;
  }

  /** Arming, window, unresolved M3 and attempt behind the addition of a key at i. */
  ghost predicate Behind(c: Crypto, t: seq<Event>, i: nat, a: nat, w: nat, d: nat, e: nat)
    requires i < |t|
  {
    && a < w < i && a < d < i && a < e < i
    && t[a].Armed? && NoArming(t, a + 1, i)
    && t[w].WindowOpened? && t[d].Deferred? && t[e].Attempted? && t[i].KeyAdded?
    && t[e].now <= t[w].deadline && CarriesKey(t[e].cmd, t[w].secret, t[i].pk)
    && c.check(t[i].pk, t[d].transcript, t[d].sig)
  }

  /** A key was added: since the last arming the window was opened with a secret, one M3
      was let through unresolved, and a command carrying that secret and this key came
      in time; the M3 verifies under the key. */
  lemma KeyNeedsArming(c: Crypto, t: seq<Event>, i: nat)
    requires ProvisionSafe(c, t) && i < |t| && t[i].KeyAdded?
    ensures exists a, w, d, e :: Behind(c, t, i, a, w, d, e)
  {
    hide CarriesKey, ProvisionSafe, SinceArming;
    AllowedAt(c, t, i);
    var e := FindAttempt(t, i);
    AllowedAt(c, t, e);
    StaysArmed(t, e, i);
    var w := FindWindow(t, i);
    var d := FindDeferred(t, i);
    AllowedAt(c, t, d);
    StaysArmed(t, d, i);
    var a := FindArmed(t, i);
    assert Behind(c, t, i, a, w, d, e);
  }
}

/** The receive window against replays and the key schedule of the secure channel (security/SecureChannel.cpp, lines 25-76 and 104-156). */
module SecureChannels {
  import opened Bytes
  import opened Hkdf
  import opened KeySizes
  import opened SessionCodes

  // ---------- replay window ----------

  const WINDOW := 64
  const TAG := 16

  datatype Window = Window(init: bool, highest: nat, slots: seq<nat>)
  {
    ghost predicate Valid() {
      |slots| == WINDOW
    }
  }

  /** A sealed payload together with what the cipher makes of it: the plain text, or nothing if it does not authenticate. */
  datatype Sealed = Sealed(bytes: seq<byte>, plain: Option<seq<byte>>)
  {
    predicate LongEnough() {
      |bytes| >= 8 + TAG
    }

    /** The counter in clear. */
    function Counter(): (c: nat)
      requires LongEnough()
    {
      GetLE(bytes[..8])
    }

    /** The cipher accepts it and the counter inside is the one in clear. */
    predicate Authentic()
      requires LongEnough()
    {
      plain.Some? && |plain.value| >= 8 && GetLE(plain.value[..8]) == Counter()
    }
  }

  function FreshWindow(): (w: Window)
    ensures w.Valid()
  {
    Window(false, 0, seq(WINDOW, _ => 0))
  }

  predicate Refused(w: Window, c: nat)
    requires w.Valid()
  {
    w.init && c <= w.highest && (w.highest - c >= WINDOW || w.slots[c % WINDOW] == c)
  }

  function Marked(w: Window, c: nat): (w': Window)
    requires w.Valid()
    ensures w'.Valid()
  {
    Window(true, if !w.init || c > w.highest then c else w.highest, w.slots[c % WINDOW := c])
  }

  /** One call of `open` on an active channel: the new window and the payload, if accepted. */
  function Opened(w: Window, s: Sealed): (r: (Window, Option<seq<byte>>))
    requires w.Valid()
    ensures r.0.Valid()
  {
    if !s.LongEnough() || Refused(w, s.Counter()) || !s.Authentic() then (w, None)
    else (Marked(w, s.Counter()), Some(s.plain.value[8..]))
  }

  ghost function Greatest(acc: set<nat>): (m: nat)
    requires acc != {}
    ensures m in acc && forall c <- acc :: c <= m
  {
    var c :| c in acc;
    if acc == {c} then c
    else
      var m := Greatest(acc - {c});
      assert acc == (acc - {c}) + {c};
      if c > m then c else m
  }

  /** The plain rule over the full set of accepted counters: new, and less than 64 behind the highest. */
  ghost predicate NewAndRecent(acc: set<nat>, c: nat) {
    acc != {} ==> c !in acc && c + 64 > Greatest(acc)
  }

  /** The rule the code follows. Zero also marks an empty slot, so it is only ever accepted first. */
  ghost predicate Admissible(acc: set<nat>, c: nat) {
    NewAndRecent(acc, c) && (acc != {} ==> c != 0)
  }

  /** The array stands for the set: every recent accepted counter is in its slot, and nothing else is. */
  ghost predicate Represents(w: Window, acc: set<nat>) {
    && w.Valid()
    && (w.init <==> acc != {})
    && (acc != {} ==> w.highest == Greatest(acc))
    && (forall i :: 0 <= i < WINDOW ==> w.slots[i] == 0 || (w.slots[i] in acc && w.slots[i] % WINDOW == i))
    && (forall c <- acc :: c + WINDOW > w.highest ==> w.slots[c % WINDOW] == c)
  }

  lemma RefusedExactly(w: Window, acc: set<nat>, c: nat)
    requires Represents(w, acc)
    ensures Refused(w, c) <==> !Admissible(acc, c)
  {
    if w.init && c <= w.highest < c + WINDOW {
      assert w.slots[c % WINDOW] == c <==> c in acc || c == 0;
    }
  }

  lemma GreatestWith(acc: set<nat>, c: nat)
    ensures Greatest(acc + {c}) == if acc == {} || c > Greatest(acc) then c else Greatest(acc)
  {
    var m := Greatest(acc + {c});
    assert m in acc + {c} && c in acc + {c};
    if acc != {} {
      assert Greatest(acc) in acc + {c};
    }
  }

  lemma DistinctSlots(a: nat, b: nat)
    requires a != b && a < b + WINDOW && b < a + WINDOW
    ensures a % WINDOW != b % WINDOW
  {
  }

  lemma MarkedSlots(w: Window, acc: set<nat>, c: nat, x: nat)
    requires Represents(w, acc) && Admissible(acc, c) && x in acc && x != c
    requires x + WINDOW > Marked(w, c).highest && x <= Marked(w, c).highest
    ensures Marked(w, c).slots[x % WINDOW] == x
  {
    assert c + WINDOW > Marked(w, c).highest;
    DistinctSlots(x, c);
  }

  lemma MarkedRepresents(w: Window, acc: set<nat>, c: nat)
    requires Represents(w, acc) && Admissible(acc, c)
    ensures Represents(Marked(w, c), acc + {c})
  {
    var w', acc' := Marked(w, c), acc + {c};
    GreatestWith(acc, c);
    forall x | x in acc' && x + WINDOW > w'.highest ensures w'.slots[x % WINDOW] == x {
      if x != c {
        MarkedSlots(w, acc, c, x);
      }
    }
  }

  /** The counters accepted by the rule over the whole run. */
  ghost function AcceptedBy(run: seq<Sealed>): (acc: set<nat>) {
    if run == [] then {}
    else
      var acc, s := AcceptedBy(run[..|run| - 1]), run[|run| - 1];
      if s.LongEnough() && s.Authentic() && Admissible(acc, s.Counter()) then acc + {s.Counter()} else acc
  }

  function WindowAfter(run: seq<Sealed>): (w: Window)
    ensures w.Valid()
  {
    if run == [] then FreshWindow() else Opened(WindowAfter(run[..|run| - 1]), run[|run| - 1]).0
  }

  lemma {:induction false} WindowRepresentsRun(run: seq<Sealed>)
    ensures Represents(WindowAfter(run), AcceptedBy(run))
  {
    if run != [] {
      var before, s := run[..|run| - 1], run[|run| - 1];
      WindowRepresentsRun(before);
      if s.LongEnough() {
        RefusedExactly(WindowAfter(before), AcceptedBy(before), s.Counter());
        if s.Authentic() && Admissible(AcceptedBy(before), s.Counter()) {
          MarkedRepresents(WindowAfter(before), AcceptedBy(before), s.Counter());
        }
      }
    }
  }

  /**
   * The 64 slots decide as the unbounded set would: after any run, a datagram is opened exactly when it
   * authenticates, its counter was never accepted before, it is less than 64 behind the highest accepted, and it is not
   * a zero behind anything accepted. A datagram that does not authenticate changes nothing.
   */
  lemma ReplayWindowRefinesSet(run: seq<Sealed>, s: Sealed)
    requires s.LongEnough()
    ensures var (w, out) := Opened(WindowAfter(run), s);
      && (out.Some? <==> s.Authentic() && Admissible(AcceptedBy(run), s.Counter()))
      && (out.Some? ==> s.plain.value == s.plain.value[..8] + out.value && s.Counter() !in AcceptedBy(run))
      && (out.None? ==> w == WindowAfter(run))
  {
    WindowRepresentsRun(run);
    RefusedExactly(WindowAfter(run), AcceptedBy(run), s.Counter());
  }

  /**
   * The plain rule, without the zero, decides about an authentic datagram exactly when its counter is not zero, or is
   * the first, or is ruled out by the plain rule as well. No sender uses zero.
   */
  lemma PlainRuleExactly(run: seq<Sealed>, s: Sealed)
    requires s.LongEnough() && s.Authentic()
    ensures var acc := AcceptedBy(run);
      (Opened(WindowAfter(run), s).1.Some? <==> NewAndRecent(acc, s.Counter()))
      <==> s.Counter() != 0 || acc == {} || 0 in acc || Greatest(acc) >= WINDOW
  {
    ReplayWindowRefinesSet(run, s);
  }

  /** After counter 5 an authentic counter 0 is refused, although it is new and 5 behind. */
  lemma NewZeroIsRefused(five: Sealed, zero: Sealed)
    requires five.LongEnough() && five.Authentic() && five.Counter() == 5
    requires zero.LongEnough() && zero.Authentic() && zero.Counter() == 0
    ensures AcceptedBy([five]) == {5} && NewAndRecent({5}, 0) && Opened(WindowAfter([five]), zero).1 == None
  {
    assert [five][..0] == [];
    ReplayWindowRefinesSet([five], zero);
  }

  // ---------- counters and nonces of the sender ----------

  const COUNTERS := 0x1_0000_0000_0000_0000
  const MAX_SEALED := 64 * 1024

  /** The sealing side: the next 64-bit counter and the nonces given to the cipher so far. */
  datatype Sender = Sender(counter: nat, nonces: seq<seq<byte>>)

  /** One call of `seal` on an active channel with `size` bytes: a counter is drawn, and zero is not used. */
  function Drawn(s: Sender, salt: seq<byte>, size: nat): (s': Sender) {
    if size > MAX_SEALED then s
    else Sender((s.counter + 1) % COUNTERS, if s.counter == 0 then s.nonces else s.nonces + [NonceOf(salt, s.counter)])
  }

  function DrawnAll(salt: seq<byte>, sizes: seq<nat>): (s: Sender) {
    if sizes == [] then Sender(1, []) else Drawn(DrawnAll(salt, sizes[..|sizes| - 1]), salt, sizes[|sizes| - 1])
  }

  /** The counter of seal number `k`: 1, 2, ... and, once the 64 bits are used up, from 1 again. */
  function CounterOf(k: nat): (c: nat)
    ensures 1 <= c < COUNTERS
  {
    k % (COUNTERS - 1) + 1
  }

  lemma CounterNext(k: nat)
    ensures CounterOf(k + 1) == if CounterOf(k) == COUNTERS - 1 then 1 else CounterOf(k) + 1
  {
  }

  function NonceOf(salt: seq<byte>, counter: nat): (nonce: seq<byte>) {
    salt + PutLE(counter, 8)
  }

  lemma SameNonce(salt: seq<byte>, a: nat, b: nat)
    requires a < COUNTERS && b < COUNTERS
    ensures NonceOf(salt, a) == NonceOf(salt, b) <==> a == b
  {
    Widths();
    GetPutLE(a, 8);
    GetPutLE(b, 8);
    assert NonceOf(salt, a)[|salt|..] == PutLE(a, 8) && NonceOf(salt, b)[|salt|..] == PutLE(b, 8);
  }

  ghost predicate CountsUp(s: Sender, salt: seq<byte>) {
    && (s.counter == CounterOf(|s.nonces|) || (s.counter == 0 && CounterOf(|s.nonces|) == 1))
    && forall k :: 0 <= k < |s.nonces| ==> s.nonces[k] == NonceOf(salt, CounterOf(k))
  }

  lemma DrawnCountsUp(s: Sender, salt: seq<byte>, size: nat)
    requires CountsUp(s, salt)
    ensures CountsUp(Drawn(s, salt, size), salt)
  {
    CounterNext(|s.nonces|);
  }

  lemma {:induction false} SealsCountUp(salt: seq<byte>, sizes: seq<nat>)
    ensures CountsUp(DrawnAll(salt, sizes), salt)
  {
    if sizes != [] {
      SealsCountUp(salt, sizes[..|sizes| - 1]);
      DrawnCountsUp(DrawnAll(salt, sizes[..|sizes| - 1]), salt, sizes[|sizes| - 1]);
    }
  }

  /**
   * Over any run of `seal` two nonces under one key are equal exactly when they are a whole round of 2^64 - 1 apart: below
   * that no nonce is used twice.
   */
  lemma NoncesRepeatExactly(salt: seq<byte>, sizes: seq<nat>, i: nat, j: nat)
    requires i < |DrawnAll(salt, sizes).nonces| && j < |DrawnAll(salt, sizes).nonces|
    ensures var nonces := DrawnAll(salt, sizes).nonces;
      nonces[i] == nonces[j] <==> i % (COUNTERS - 1) == j % (COUNTERS - 1)
  {
    SealsCountUp(salt, sizes);
    SameNonce(salt, CounterOf(i), CounterOf(j));
  }

  // ---------- key schedule ----------

  const OKM_LENGTH := 68
  const INFO: seq<byte> := [82, 101, 109, 111, 116, 101, 80, 108, 97, 121, 32, 115, 101, 115, 115, 105, 111, 110, 32, 118, 49]

  /** `operator<=` on byte vectors. */
  predicate LexLe(a: seq<byte>, b: seq<byte>) {
    if a == [] then true
    else if b == [] then false
    else if a[0] != b[0] then a[0] < b[0]
    else LexLe(a[1..], b[1..])
  }

  lemma {:induction false} LexTotalAntisymmetric(a: seq<byte>, b: seq<byte>)
    ensures LexLe(a, b) || LexLe(b, a)
    ensures LexLe(a, b) && LexLe(b, a) ==> a == b
  {
    if a != [] && b != [] {
      LexTotalAntisymmetric(a[1..], b[1..]);
      if a[0] == b[0] && a[1..] == b[1..] {
        assert a == [a[0]] + a[1..] == [b[0]] + b[1..] == b;
      }
    }
  }

  /** The first byte in which two vectors differ decides, and a vector comes before those it begins. */
  lemma {:induction false} LexDecidedByFirstDifference(a: seq<byte>, b: seq<byte>, common: seq<byte>)
    ensures LexLe(common, common + b)
    ensures a != [] && b != [] && a[0] != b[0] ==> (LexLe(common + a, common + b) <==> a[0] < b[0])
    ensures b != [] ==> !LexLe(common + b, common)
  {
    if common == [] {
      assert common + a == a && common + b == b;
    } else {
      LexDecidedByFirstDifference(a, b, common[1..]);
      assert (common + a)[1..] == common[1..] + a && (common + b)[1..] == common[1..] + b;
    }
  }

  /** The session code followed by both salts in sorted order. */
  function SaltOf(code: seq<byte>, ours: seq<byte>, peers: seq<byte>): (s: seq<byte>) {
    code + if LexLe(ours, peers) then ours + peers else peers + ours
  }

  lemma SaltIsSymmetric(code: seq<byte>, a: seq<byte>, b: seq<byte>)
    ensures SaltOf(code, a, b) == SaltOf(code, b, a)
  {
    LexTotalAntisymmetric(a, b);
  }

  /** The two ends salt their keys alike, whatever their salts, exactly when they put in the same code byte for byte. */
  lemma SaltsMatchExactly(hostCode: seq<byte>, clientCode: seq<byte>, hostSalt: seq<byte>, clientSalt: seq<byte>)
    ensures SaltOf(hostCode, hostSalt, clientSalt) == SaltOf(clientCode, clientSalt, hostSalt) <==> hostCode == clientCode
  {
    SaltIsSymmetric(clientCode, hostSalt, clientSalt);
    var tail := if LexLe(hostSalt, clientSalt) then hostSalt + clientSalt else clientSalt + hostSalt;
    assert (hostCode + tail)[..|hostCode + tail| - |tail|] == hostCode;
    assert (clientCode + tail)[..|clientCode + tail| - |tail|] == clientCode;
  }

  /**
   * A complete code typed in lower case always lets the client in, but the two ends then salt their keys alike exactly
   * when the code has no capital letters at all.
   */
  lemma TypedInLowerCase(code: seq<byte>, hostSalt: seq<byte>, clientSalt: seq<byte>)
    requires Complete(Compact(code))
    ensures Verified(Lowered(code), code)
    ensures SaltOf(code, hostSalt, clientSalt) == SaltOf(Lowered(code), clientSalt, hostSalt)
      <==> forall ch <- code :: !Capital(ch)
  {
    LoweredVerifies(code);
    SaltsMatchExactly(code, Lowered(code), hostSalt, clientSalt);
    LoweredIsSameExactly(code);
  }

  datatype Keys = Keys(send: seq<byte>, recv: seq<byte>, nonceSalt: seq<byte>)

  /** The keys one side derives from its shared secret, or nothing if an input is malformed. */
  ghost function Derived(hmac: Hmac, shared: Option<seq<byte>>, peerKey: seq<byte>, ours: seq<byte>, peers: seq<byte>,
                         code: seq<byte>, weAreHost: bool): (k: Option<Keys>)
    ensures k.Some? <==> |peerKey| == PUBLIC_KEY_BYTES && |ours| == |peers| == SALT_BYTES && shared.Some? && |shared.value| == 32
  {
    if |peerKey| != PUBLIC_KEY_BYTES || |ours| != SALT_BYTES || |peers| != SALT_BYTES then None
    else if shared.None? || |shared.value| != 32 then None
    else
      var okm := Okm(hmac, shared.value, SaltOf(code, ours, peers), INFO, OKM_LENGTH);
      var hostKey, clientKey, nonce := okm[..32], okm[32..64], okm[64..68];
      Some(if weAreHost then Keys(hostKey, clientKey, nonce) else Keys(clientKey, hostKey, nonce))
  }

  /** Both ends of one exchange: what one side sends with, the other receives with, for every pair of salts. */
  lemma KeysAgree(hmac: Hmac, shared: Option<seq<byte>>, hostPub: seq<byte>, clientPub: seq<byte>,
                  hostSalt: seq<byte>, clientSalt: seq<byte>, code: seq<byte>)
    requires |hostPub| == |clientPub| == PUBLIC_KEY_BYTES
    ensures var host := Derived(hmac, shared, clientPub, hostSalt, clientSalt, code, true);
      var client := Derived(hmac, shared, hostPub, clientSalt, hostSalt, code, false);
      && host.Some? == client.Some?
      && (host.Some? ==>
          && host.value.send == client.value.recv
          && host.value.recv == client.value.send
          && host.value.nonceSalt == client.value.nonceSalt)
  {
    SaltIsSymmetric(code, hostSalt, clientSalt);
  }

  /**
   * Nothing of the derived output is used twice or left out: the host's keys and nonce salt in this order, and the client's
   * the other way round, are the whole of its 68 bytes, cut at 32 and 64.
   */
  lemma KeysAreWholeOutput(hmac: Hmac, shared: Option<seq<byte>>, peerKey: seq<byte>, ours: seq<byte>, peers: seq<byte>,
                           code: seq<byte>, weAreHost: bool)
    ensures var d := Derived(hmac, shared, peerKey, ours, peers, code, weAreHost);
      d.Some? ==>
        var k := d.value;
        && |k.send| == 32 && |k.recv| == 32 && |k.nonceSalt| == 4
        && (if weAreHost then k.send + k.recv else k.recv + k.send) + k.nonceSalt ==
           Okm(hmac, shared.value, code + (if LexLe(ours, peers) then ours + peers else peers + ours), INFO, 68)
  {
  }

  /**
   * The two directions of a session use one pair of key and nonce only if the derived output repeats itself: its first and
   * second 32 bytes are equal. Then the same seal on either side, counted in whole rounds, collides.
   */
  lemma DirectionsShareNonceExactly(hmac: Hmac, shared: seq<byte>, hostPub: seq<byte>, clientPub: seq<byte>,
                                    hostSalt: seq<byte>, clientSalt: seq<byte>, code: seq<byte>,
                                    hostSizes: seq<nat>, clientSizes: seq<nat>, i: nat, j: nat)
    requires |hostPub| == |clientPub| == 64 && |hostSalt| == |clientSalt| == 16 && |shared| == 32
    requires var host := Derived(hmac, Some(shared), clientPub, hostSalt, clientSalt, code, true).value;
      i < |DrawnAll(host.nonceSalt, hostSizes).nonces|
    requires var client := Derived(hmac, Some(shared), hostPub, clientSalt, hostSalt, code, false).value;
      j < |DrawnAll(client.nonceSalt, clientSizes).nonces|
    ensures var host := Derived(hmac, Some(shared), clientPub, hostSalt, clientSalt, code, true).value;
      var client := Derived(hmac, Some(shared), hostPub, clientSalt, hostSalt, code, false).value;
      var okm := Okm(hmac, shared, SaltOf(code, hostSalt, clientSalt), INFO, 68);
      (host.send == client.send
       && DrawnAll(host.nonceSalt, hostSizes).nonces[i] == DrawnAll(client.nonceSalt, clientSizes).nonces[j])
      <==> okm[..32] == okm[32..64] && i % (COUNTERS - 1) == j % (COUNTERS - 1)
  {
    KeysAgree(hmac, Some(shared), hostPub, clientPub, hostSalt, clientSalt, code);
    var host := Derived(hmac, Some(shared), clientPub, hostSalt, clientSalt, code, true).value;
    SealsCountUp(host.nonceSalt, hostSizes);
    SealsCountUp(host.nonceSalt, clientSizes);
    SameNonce(host.nonceSalt, CounterOf(i), CounterOf(j));
  }

  // ---------- the object ----------

  /** The cipher, with its tag behind the text, or nothing if it fails: key, nonce, plain text. */
  type Cipher = (seq<byte>, seq<byte>, seq<byte>) -> Option<seq<byte>>

  class SecureChannel {
    var active: bool
    var sendKey: seq<byte>
    var recvKey: seq<byte>
    var nonceSalt: seq<byte>
    var sendCounter: nat
    var recvHighest: nat
    var recvInit: bool
    const recvWindow: array<nat>
    var openedCount: nat
    var authFailures: nat
    var replaysRejected: nat
    var sealedCount: nat
    /** The nonces given to the cipher since the keys were made. */
    ghost var nonces: seq<seq<byte>>

    ghost predicate Valid() {
      recvWindow.Length == WINDOW
    }

    ghost function Sending(): (s: Sender)
      reads this
    {
      Sender(sendCounter, nonces)
    }

    ghost function State(): (w: Window)
      requires Valid()
      reads this, recvWindow
      ensures w.Valid()
    {
      Window(recvInit, recvHighest, recvWindow[..])
    }

    constructor ()
      ensures Valid() && fresh(recvWindow) && !active && State() == FreshWindow()
    {
      active := false;
      sendKey, recvKey, nonceSalt := [], [], [];
      sendCounter, recvHighest, recvInit := 1, 0, false;
      recvWindow := new nat[WINDOW](_ => 0);
      openedCount, authFailures, replaysRejected, sealedCount := 0, 0, 0, 0;
      nonces := [];
    }

    /** `shared` is what ECDH yields for our key pair and the peer's public key. */
    method Finish(hmac: Hmac, shared: Option<seq<byte>>, ourSalt: seq<byte>, peerPublicKey: seq<byte>,
                  peerSalt: seq<byte>, sessionCode: seq<byte>, weAreHost: bool) returns (ok: bool)
      requires Valid()
      modifies this, recvWindow
      ensures var k := Derived(hmac, shared, peerPublicKey, ourSalt, peerSalt, sessionCode, weAreHost);
        && ok == active == k.Some?
        && (ok ==> Keys(sendKey, recvKey, nonceSalt) == k.value && State() == FreshWindow() && Sending() == Sender(1, []))
    {
      active := false;
      if |peerPublicKey| != PUBLIC_KEY_BYTES || |ourSalt| != SALT_BYTES || |peerSalt| != SALT_BYTES {
        return false;
      }
      if shared.None? || |shared.value| != 32 {
        return false;
      }
      var salt := sessionCode;
      if LexLe(ourSalt, peerSalt) {
        salt := salt + ourSalt;
        salt := salt + peerSalt;
      } else {
        salt := salt + peerSalt;
        salt := salt + ourSalt;
      }
      assert salt == SaltOf(sessionCode, ourSalt, peerSalt);
      var okm := HkdfSha256(hmac, shared.value, salt, INFO, OKM_LENGTH);
      if |okm| != OKM_LENGTH {
        return false;
      }
      var hostKey, clientKey := okm[..32], okm[32..64];
      nonceSalt := okm[64..68];
      if weAreHost {
        sendKey, recvKey := hostKey, clientKey;
      } else {
        sendKey, recvKey := clientKey, hostKey;
      }
      recvHighest, recvInit := 0, false;
      for i := 0 to WINDOW
        modifies recvWindow
        invariant forall k :: 0 <= k < i ==> recvWindow[k] == 0
      {
        recvWindow[i] := 0;
      }
      assert recvWindow[..] == FreshWindow().slots;
      sendCounter, nonces := 1, [];
      active := true;
      return true;
    }

    /** Counter and payload under a nonce of salt and counter, or nothing; the counter is drawn even if the cipher fails. */
    method Seal(cipher: Cipher, payload: seq<byte>) returns (out: Option<seq<byte>>)
      modifies this`sendCounter, this`sealedCount, this`nonces
      ensures Sending() == if active then Drawn(old(Sending()), nonceSalt, |payload|) else old(Sending())
      ensures out ==
        if active && |payload| <= MAX_SEALED && old(sendCounter) != 0
        then cipher(sendKey, nonces[|nonces| - 1], PutLE(old(sendCounter), 8) + payload) else None
      ensures sealedCount == old(sealedCount) + if out.Some? then 1 else 0
    {
      if !active || |payload| > MAX_SEALED {
        return None;
      }
      var counter := sendCounter;
      sendCounter := (sendCounter + 1) % COUNTERS;
      if counter == 0 {
        return None;
      }
      var nonce := NonceOf(nonceSalt, counter);
      nonces := nonces + [nonce];
      out := cipher(sendKey, nonce, PutLE(counter, 8) + payload);
      if out.Some? {
        sealedCount := sealedCount + 1;
      }
    }

    /** The check before decryption, the inner counter, and the mark. */
    method Open(s: Sealed) returns (out: Option<seq<byte>>)
      requires Valid()
      modifies this, recvWindow
      ensures active == old(active)
      ensures (State(), out) == if active then Opened(old(State()), s) else (old(State()), None)
      ensures openedCount == old(openedCount) + if out.Some? then 1 else 0
      ensures var replayed := active && s.LongEnough() && Refused(old(State()), s.Counter());
        && replaysRejected == old(replaysRejected) + (if replayed then 1 else 0)
        && authFailures == old(authFailures) + if out.None? && !replayed then 1 else 0
    {
      if !active || |s.bytes| < 8 + TAG {
        authFailures := authFailures + 1;
        return None;
      }
      var counter := GetLE(s.bytes[..8]);
      if recvInit {
        if counter <= recvHighest {
          var back := recvHighest - counter;
          if back >= WINDOW {
            replaysRejected := replaysRejected + 1;
            return None;
          }
          if recvWindow[counter % WINDOW] == counter {
            replaysRejected := replaysRejected + 1;
            return None;
          }
        }
      }
      if s.plain.None? || |s.plain.value| < 8 {
        authFailures := authFailures + 1;
        return None;
      }
      var inner := GetLE(s.plain.value[..8]);
      if inner != counter {
        authFailures := authFailures + 1;
        return None;
      }
      if !recvInit {
        recvInit, recvHighest := true, counter;
      } else if counter > recvHighest {
        recvHighest := counter;
      }
      recvWindow[counter % WINDOW] := counter;
      openedCount := openedCount + 1;
      return Some(s.plain.value[8..]);
    }
  }
}

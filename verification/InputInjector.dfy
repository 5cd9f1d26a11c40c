/** Remote keyboard and mouse events and the keys they hold down (input/InputInjector.cpp, lines 73-134 and 145-213). */
module InputInjection {
  import opened Bytes
  import opened InputPermissions

  const KEYS := 256
  const BUTTONS := 5

  const KEY_DOWN: byte := 1
  const KEY_UP: byte := 2
  const MOUSE_MOVE: byte := 3
  const BUTTON_DOWN: byte := 4
  const BUTTON_UP: byte := 5
  const MOUSE_WHEEL: byte := 6

  datatype PerClient = PerClient(playerIndex: byte, perms: Permissions, keysDown: seq<bool>, mouseButtons: seq<bool>)

  /** The injector's records, and the keys and buttons the operating system takes to be held. */
  datatype Injector = Injector(clients: seq<PerClient>, osKeys: set<nat>, osButtons: set<nat>, injected: nat, rejected: nat)

  function NewClient(p: byte): (c: PerClient) {
    PerClient(p, Permissions(true, false, false, true), seq(KEYS, _ => false), seq(BUTTONS, _ => false))
  }

  function IndexOf(clients: seq<PerClient>, p: byte): (i: nat)
    ensures i <= |clients|
    ensures i < |clients| ==> clients[i].playerIndex == p
    ensures forall k :: 0 <= k < i ==> clients[k].playerIndex != p
  {
    if clients == [] then 0
    else if clients[0].playerIndex == p then 0
    else 1 + IndexOf(clients[1..], p)
  }

  function Ensured(clients: seq<PerClient>, p: byte): (cs: seq<PerClient>)
    ensures IndexOf(clients, p) < |cs| && cs[IndexOf(clients, p)].playerIndex == p
  {
    if IndexOf(clients, p) < |clients| then clients else clients + [NewClient(p)]
  }

  /** Virtual key 0 does not exist and is never flagged. */
  predicate WellFormed(c: PerClient) {
    |c.keysDown| == KEYS && !c.keysDown[0] && |c.mouseButtons| == BUTTONS
  }

  ghost predicate Valid(s: Injector) {
    && (forall i :: 0 <= i < |s.clients| ==> WellFormed(s.clients[i]))
    && (forall i, j :: 0 <= i < j < |s.clients| ==> s.clients[i].playerIndex != s.clients[j].playerIndex)
  }

  function HeldBy(flags: seq<bool>): (held: set<nat>) {
    set k | 0 <= k < |flags| && flags[k]
  }

  lemma HeldByNext(flags: seq<bool>, k: nat)
    requires k < |flags|
    ensures HeldBy(flags[..k + 1]) == HeldBy(flags[..k]) + if flags[k] then {k} else {}
  {
  }

  function Cleared(c: PerClient): (c': PerClient)
    ensures WellFormed(c')
  {
    c.(keysDown := seq(KEYS, _ => false), mouseButtons := seq(BUTTONS, _ => false))
  }

  /** Every key and button the player is recorded to hold is released, in the system and in the record. */
  function Released(s: Injector, p: byte): (s': Injector) {
    var cs, i := Ensured(s.clients, p), IndexOf(s.clients, p);
    s.(clients := cs[i := Cleared(cs[i])],
       osKeys := s.osKeys - HeldBy(cs[i].keysDown),
       osButtons := s.osButtons - HeldBy(cs[i].mouseButtons))
  }

  function Permitted(s: Injector, p: byte, perms: Permissions): (s': Injector) {
    var cs, i := Ensured(s.clients, p), IndexOf(s.clients, p);
    var s := s.(clients := cs[i := cs[i].(perms := perms)]);
    if !perms.keyboard then Released(s, p) else s
  }

  function Disconnected(s: Injector, p: byte): (s': Injector) {
    var s := Released(s, p);
    var i := IndexOf(s.clients, p);
    if i < |s.clients| then s.(clients := s.clients[..i] + s.clients[i + 1..]) else s
  }

  function Reject(s: Injector): (s': Injector) {
    s.(rejected := s.rejected + 1)
  }

  function Flag(flags: seq<bool>, k: nat, down: bool): (flags': seq<bool>) {
    if k < |flags| then flags[k := down] else flags
  }

  function Held(held: set<nat>, k: nat, down: bool): (held': set<nat>) {
    if down then held + {k} else held - {k}
  }

  /** One event of a player who is on record; every injected event reaches the system. */
  function Injected(s: Injector, i: nat, kind: byte, code: byte): (s': Injector)
    requires i < |s.clients|
  {
    var c := s.clients[i];
    var done := s.(injected := s.injected + 1);
    if kind == KEY_DOWN || kind == KEY_UP then
      if code == 0 then Reject(s)
      else done.(clients := s.clients[i := c.(keysDown := Flag(c.keysDown, code, kind == KEY_DOWN))],
                 osKeys := Held(s.osKeys, code, kind == KEY_DOWN))
    else if kind == BUTTON_DOWN || kind == BUTTON_UP then
      if code >= BUTTONS then Reject(s)
      else done.(clients := s.clients[i := c.(mouseButtons := Flag(c.mouseButtons, code, kind == BUTTON_DOWN))],
                 osButtons := Held(s.osButtons, code, kind == BUTTON_DOWN))
    else if kind == MOUSE_MOVE || kind == MOUSE_WHEEL then done
    else Reject(s)
  }

  /** A raw payload: 23 bytes of controller state or 19 bytes of event; `padTakesIt` is the gamepad driver's answer. */
  function Applied(s: Injector, p: byte, data: seq<byte>, padTakesIt: bool): (s': Injector) {
    var isState := |data| == 23 && data[0] == 0;
    var isEvent := |data| == 19 && data[0] == 1;
    if !isState && !isEvent then Reject(s)
    else
      var i := IndexOf(s.clients, p);
      var s := s.(clients := Ensured(s.clients, p));
      var perms := s.clients[i].perms;
      if isState then
        if !perms.controller || data[1] != 1 then Reject(s)
        else if data[2] == 0 then s
        else if padTakesIt then s.(injected := s.injected + 1)
        else Reject(s)
      else
        var keyboardEvent := data[1] == KEY_DOWN || data[1] == KEY_UP;
        if keyboardEvent && !perms.keyboard then Reject(s)
        else if !keyboardEvent && !perms.mouse then Reject(s)
        else Injected(s, i, data[1], data[2])
  }

  // ---------- every run ----------

  datatype Op =
    | SetPermissions(p: byte, perms: Permissions)
    | ApplyInput(p: byte, data: seq<byte>, padTakesIt: bool)
    | Disconnect(p: byte)

  function Next(s: Injector, op: Op): (s': Injector) {
    match op
    case SetPermissions(p, perms) => Permitted(s, p, perms)
    case ApplyInput(p, data, pad) => Applied(s, p, data, pad)
    case Disconnect(p) => Disconnected(s, p)
  }

  function Run(ops: seq<Op>): (s: Injector) {
    if ops == [] then Injector([], {}, {}, 0, 0) else Next(Run(ops[..|ops| - 1]), ops[|ops| - 1])
  }

  ghost predicate KeyFlagged(clients: seq<PerClient>, k: nat) {
    exists i :: 0 <= i < |clients| && k in HeldBy(clients[i].keysDown)
  }

  ghost predicate ButtonFlagged(clients: seq<PerClient>, b: nat) {
    exists i :: 0 <= i < |clients| && b in HeldBy(clients[i].mouseButtons)
  }

  /** Whatever is held is flagged by some player. */
  ghost predicate Covered(s: Injector) {
    && Valid(s)
    && (forall k <- s.osKeys :: KeyFlagged(s.clients, k))
    && (forall b <- s.osButtons :: ButtonFlagged(s.clients, b))
  }

  /** Only players with keyboard permission have keys flagged. */
  ghost predicate KeysNeedPermission(s: Injector) {
    forall i :: 0 <= i < |s.clients| && !s.clients[i].perms.keyboard ==> HeldBy(s.clients[i].keysDown) == {}
  }

  /** From one state to the next: what is held was held and flagged before and still is, or is flagged now. */
  lemma CoverCarries(s: Injector, s': Injector)
    requires Covered(s) && Valid(s') && |s.clients| <= |s'.clients|
    requires forall k <- s'.osKeys :: k in s.osKeys || KeyFlagged(s'.clients, k)
    requires forall b <- s'.osButtons :: b in s.osButtons || ButtonFlagged(s'.clients, b)
    requires forall i :: 0 <= i < |s.clients| ==> HeldBy(s.clients[i].keysDown) * s'.osKeys <= HeldBy(s'.clients[i].keysDown)
    requires forall i :: 0 <= i < |s.clients| ==>
      HeldBy(s.clients[i].mouseButtons) * s'.osButtons <= HeldBy(s'.clients[i].mouseButtons)
    ensures Covered(s')
  {
    forall k | k in s'.osKeys ensures KeyFlagged(s'.clients, k) {
      if k in s.osKeys {
        var i :| 0 <= i < |s.clients| && k in HeldBy(s.clients[i].keysDown);
        assert k in HeldBy(s.clients[i].keysDown) * s'.osKeys;
      }
    }
    forall b | b in s'.osButtons ensures ButtonFlagged(s'.clients, b) {
      if b in s.osButtons {
        var i :| 0 <= i < |s.clients| && b in HeldBy(s.clients[i].mouseButtons);
        assert b in HeldBy(s.clients[i].mouseButtons) * s'.osButtons;
      }
    }
  }

  lemma {:induction false} SameIndex(a: seq<PerClient>, b: seq<PerClient>, p: byte)
    requires IndexOf(b, p) < |a| && a[IndexOf(b, p)].playerIndex == p
    requires forall i :: 0 <= i < IndexOf(b, p) && i < |b| ==> a[i].playerIndex == b[i].playerIndex
    ensures IndexOf(a, p) == IndexOf(b, p)
  {
  }

  lemma EnsuredKeeps(s: Injector, p: byte)
    requires Covered(s) && KeysNeedPermission(s)
    ensures var s' := s.(clients := Ensured(s.clients, p)); Covered(s') && KeysNeedPermission(s')
  {
    CoverCarries(s, s.(clients := Ensured(s.clients, p)));
  }

  /** Releasing needs no permission, so it also serves a player whose keyboard was just revoked. */
  lemma ReleasedKeeps(s: Injector, p: byte)
    requires Covered(s) && IndexOf(s.clients, p) < |s.clients|
    requires forall i :: 0 <= i < |s.clients| && i != IndexOf(s.clients, p) && !s.clients[i].perms.keyboard ==>
      HeldBy(s.clients[i].keysDown) == {}
    ensures Covered(Released(s, p)) && KeysNeedPermission(Released(s, p))
    ensures var c := Released(s, p).clients[IndexOf(s.clients, p)]; HeldBy(c.keysDown) == {} && HeldBy(c.mouseButtons) == {}
  {
    CoverCarries(s, Released(s, p));
  }

  lemma PermittedKeeps(s: Injector, p: byte, perms: Permissions)
    requires Covered(s) && KeysNeedPermission(s)
    ensures Covered(Permitted(s, p, perms)) && KeysNeedPermission(Permitted(s, p, perms))
  {
    EnsuredKeeps(s, p);
    var cs, i := Ensured(s.clients, p), IndexOf(s.clients, p);
    var changed := s.(clients := cs[i := cs[i].(perms := perms)]);
    CoverCarries(s.(clients := cs), changed);
    if !perms.keyboard {
      SameIndex(changed.clients, s.clients, p);
      ReleasedKeeps(changed, p);
    }
  }

  lemma FlagSets(flags: seq<bool>, k: nat, down: bool)
    requires k < |flags|
    ensures HeldBy(Flag(flags, k, down)) == Held(HeldBy(flags), k, down)
  {
  }

  lemma InjectedKeeps(s: Injector, i: nat, kind: byte, code: byte)
    requires Covered(s) && KeysNeedPermission(s) && i < |s.clients|
    requires kind == KEY_DOWN || kind == KEY_UP ==> s.clients[i].perms.keyboard
    ensures Covered(Injected(s, i, kind, code)) && KeysNeedPermission(Injected(s, i, kind, code))
  {
    var s' := Injected(s, i, kind, code);
    if s'.injected != s.injected {
      if kind == KEY_DOWN || kind == KEY_UP {
        FlagSets(s.clients[i].keysDown, code, kind == KEY_DOWN);
        if kind == KEY_DOWN {
          assert code in HeldBy(s'.clients[i].keysDown);
          assert KeyFlagged(s'.clients, code);
        }
      } else if kind == BUTTON_DOWN || kind == BUTTON_UP {
        FlagSets(s.clients[i].mouseButtons, code, kind == BUTTON_DOWN);
        if kind == BUTTON_DOWN {
          assert code in HeldBy(s'.clients[i].mouseButtons);
          assert ButtonFlagged(s'.clients, code);
        }
      }
    }
    CoverCarries(s, s');
  }

  lemma AppliedKeeps(s: Injector, p: byte, data: seq<byte>, pad: bool)
    requires Covered(s) && KeysNeedPermission(s)
    ensures Covered(Applied(s, p, data, pad)) && KeysNeedPermission(Applied(s, p, data, pad))
  {
    var e, i := s.(clients := Ensured(s.clients, p)), IndexOf(s.clients, p);
    EnsuredKeeps(s, p);
    if |data| == 19 && data[0] == 1 {
      var keyboardEvent := data[1] == KEY_DOWN || data[1] == KEY_UP;
      if keyboardEvent ==> e.clients[i].perms.keyboard {
        InjectedKeeps(e, i, data[1], data[2]);
      }
    }
  }

  lemma DisconnectedKeeps(s: Injector, p: byte)
    requires Covered(s) && KeysNeedPermission(s)
    ensures Covered(Disconnected(s, p)) && KeysNeedPermission(Disconnected(s, p))
    ensures forall c <- Disconnected(s, p).clients :: c.playerIndex != p
  {
    EnsuredKeeps(s, p);
    var e, i := s.(clients := Ensured(s.clients, p)), IndexOf(s.clients, p);
    SameIndex(e.clients, s.clients, p);
    ReleasedKeeps(e, p);
    var r := Released(e, p);
    assert r == Released(s, p);
    SameIndex(r.clients, s.clients, p);
    RemovedKeeps(r, i);
  }

  /** A player who holds nothing can be taken off the list. */
  lemma RemovedKeeps(s: Injector, i: nat)
    requires Covered(s) && KeysNeedPermission(s) && i < |s.clients|
    requires HeldBy(s.clients[i].keysDown) == {} && HeldBy(s.clients[i].mouseButtons) == {}
    ensures var s' := s.(clients := s.clients[..i] + s.clients[i + 1..]); Covered(s') && KeysNeedPermission(s')
    ensures forall c <- s.clients[..i] + s.clients[i + 1..] :: c.playerIndex != s.clients[i].playerIndex
  {
    var cs := s.clients[..i] + s.clients[i + 1..];
    forall k | k in s.osKeys ensures KeyFlagged(cs, k) {
      var j :| 0 <= j < |s.clients| && k in HeldBy(s.clients[j].keysDown);
      assert s.clients[j] == cs[if j < i then j else j - 1];
    }
    forall b | b in s.osButtons ensures ButtonFlagged(cs, b) {
      var j :| 0 <= j < |s.clients| && b in HeldBy(s.clients[j].mouseButtons);
      assert s.clients[j] == cs[if j < i then j else j - 1];
    }
  }

  /**
   * On every run each key or button the system holds is flagged by a player on record, a player without keyboard
   * permission has no key flagged, and when no player is left nothing is held.
   */
  lemma {:induction false} NoStuckKeys(ops: seq<Op>)
    ensures var s := Run(ops);
      && Covered(s)
      && KeysNeedPermission(s)
      && (s.clients == [] ==> s.osKeys == {} && s.osButtons == {})
  {
    if ops != [] {
      NoStuckKeys(ops[..|ops| - 1]);
      var s := Run(ops[..|ops| - 1]);
      match ops[|ops| - 1]
      case SetPermissions(p, perms) => PermittedKeeps(s, p, perms);
      case ApplyInput(p, data, pad) => AppliedKeeps(s, p, data, pad);
      case Disconnect(p) => DisconnectedKeeps(s, p);
    }
  }

  /** Every player who did anything disconnected afterwards. */
  ghost predicate EveryoneLeft(ops: seq<Op>) {
    forall i :: 0 <= i < |ops| && !ops[i].Disconnect? ==> exists j :: i < j < |ops| && ops[j] == Disconnect(ops[i].p)
  }

  /** An operation puts no player but its own on record. */
  lemma NextOnRecord(s: Injector, op: Op, c: PerClient)
    requires Covered(s) && KeysNeedPermission(s) && c in Next(s, op).clients
    ensures if c.playerIndex == op.p then !op.Disconnect? else c in s.clients
  {
    if op.Disconnect? {
      DisconnectedKeeps(s, op.p);
    }
  }

  /** The players who did something and have not disconnected since. */
  function Present(ops: seq<Op>): (players: set<byte>) {
    if ops == [] then {}
    else
      var before, op := Present(ops[..|ops| - 1]), ops[|ops| - 1];
      if op.Disconnect? then before - {op.p} else before + {op.p}
  }

  lemma {:induction false} OnRecordArePresent(ops: seq<Op>)
    ensures forall c <- Run(ops).clients :: c.playerIndex in Present(ops)
  {
    if ops != [] {
      var before, op := ops[..|ops| - 1], ops[|ops| - 1];
      OnRecordArePresent(before);
      NoStuckKeys(before);
      var s := Run(before);
      forall c | c in Next(s, op).clients ensures c.playerIndex in Present(ops) {
        NextOnRecord(s, op, c);
      }
    }
  }

  lemma {:induction false} PresentSince(ops: seq<Op>, p: byte) returns (i: nat)
    requires p in Present(ops)
    ensures i < |ops| && ops[i].p == p && !ops[i].Disconnect?
    ensures forall j :: i < j < |ops| ==> ops[j] != Disconnect(p)
  {
    var before, op := ops[..|ops| - 1], ops[|ops| - 1];
    if op.p == p {
      i := |ops| - 1;
    } else {
      i := PresentSince(before, p);
      assert forall j :: 0 <= j < |before| ==> ops[j] == before[j];
    }
  }

  /** On every run in which every player has left after the last thing it did, nothing is held. */
  lemma NothingHeldAfterAllLeft(ops: seq<Op>)
    requires EveryoneLeft(ops)
    ensures Run(ops).osKeys == {} && Run(ops).osButtons == {}
  {
    NoStuckKeys(ops);
    if Run(ops).clients != [] {
      OnRecordArePresent(ops);
      var i := PresentSince(ops, Run(ops).clients[0].playerIndex);
    }
  }

  /** A key event reaches the system exactly when the player's keyboard permission allows it at that moment. */
  lemma PermissionDecides(s: Injector, p: byte, data: seq<byte>, pad: bool)
    requires Valid(s) && |data| == 19 && data[0] == 1 && (data[1] == KEY_DOWN || data[1] == KEY_UP) && data[2] != 0
    ensures var i := IndexOf(s.clients, p);
      var s' := Applied(s, p, data, pad);
      if i < |s.clients| && s.clients[i].perms.keyboard
      then s'.osKeys == Held(s.osKeys, data[2], data[1] == KEY_DOWN)
        && HeldBy(s'.clients[i].keysDown) == Held(HeldBy(s.clients[i].keysDown), data[2], data[1] == KEY_DOWN)
        && s'.injected == s.injected + 1
      else s' == s.(clients := Ensured(s.clients, p), rejected := s.rejected + 1)
  {
    var i := IndexOf(s.clients, p);
    if i < |s.clients| {
      FlagSets(s.clients[i].keysDown, data[2], data[1] == KEY_DOWN);
    }
  }

  /** The permissions that count for a player: those set, or else the controller and its vibration. */
  function PermsOf(s: Injector, p: byte): (perms: Permissions) {
    var i := IndexOf(s.clients, p);
    if i < |s.clients| then s.clients[i].perms else Permissions(true, false, false, true)
  }

  /** The system's keys and buttons and both counters after an event that is let through, or not. */
  ghost predicate EventTaken(s: Injector, s': Injector, kind: byte, code: byte, taken: bool) {
    && s'.injected == s.injected + (if taken then 1 else 0)
    && s'.rejected == s.rejected + (if taken then 0 else 1)
    && s'.osKeys == (if !taken then s.osKeys
                     else if kind == 1 then s.osKeys + {code} else if kind == 2 then s.osKeys - {code} else s.osKeys)
    && s'.osButtons == (if !taken then s.osButtons
                        else if kind == 4 then s.osButtons + {code} else if kind == 5 then s.osButtons - {code} else s.osButtons)
  }

  /**
   * An event reaches the system exactly when the player's permission for its kind, keyboard or mouse, is set at that moment
   * and it is a key that exists, one of five buttons, a move or a turn of the wheel. It is counted as injected or rejected.
   */
  lemma EventDecidedExactly(s: Injector, p: byte, data: seq<byte>, pad: bool)
    requires Valid(s) && |data| == 19 && data[0] == 1
    ensures var kind, code := data[1], data[2];
      EventTaken(s, Applied(s, p, data, pad), kind, code,
                 || (1 <= kind <= 2 && PermsOf(s, p).keyboard && code != 0)
                 || (4 <= kind <= 5 && PermsOf(s, p).mouse && code < 5)
                 || ((kind == 3 || kind == 6) && PermsOf(s, p).mouse))
  {
  }

  /** The record of the player follows: a pressed button is flagged, a released one no more, and nothing else changes. */
  lemma ButtonFlagFollows(s: Injector, p: byte, data: seq<byte>, pad: bool)
    requires Valid(s) && |data| == 19 && data[0] == 1 && 4 <= data[1] <= 5
    ensures ButtonsOf(Applied(s, p, data, pad), p) ==
      if !PermsOf(s, p).mouse || data[2] >= 5 then ButtonsOf(s, p)
      else if data[1] == 4 then ButtonsOf(s, p) + {data[2]} else ButtonsOf(s, p) - {data[2]}
  {
    var e, i := s.(clients := Ensured(s.clients, p)), IndexOf(s.clients, p);
    SameIndex(e.clients, s.clients, p);
    var s' := Applied(s, p, data, pad);
    SameIndex(s'.clients, s.clients, p);
    assert ButtonsOf(e, p) == ButtonsOf(s, p);
    FlagSets(e.clients[i].mouseButtons, if data[2] < 5 then data[2] else 0, data[1] == 4);
  }

  /** A controller report goes to the driver exactly with permission and in a known layout; other payloads are rejected. */
  lemma ReportDecidedExactly(s: Injector, p: byte, data: seq<byte>, pad: bool)
    requires Valid(s)
    ensures var s' := Applied(s, p, data, pad);
      |data| == 23 && data[0] == 0 ==>
        var refused := !PermsOf(s, p).controller || data[1] != 1 || (data[2] != 0 && !pad);
        && s'.osKeys == s.osKeys && s'.osButtons == s.osButtons
        && s'.rejected == s.rejected + (if refused then 1 else 0)
        && s'.injected == s.injected + if !refused && data[2] != 0 then 1 else 0
    ensures !(|data| == 23 && data[0] == 0) && !(|data| == 19 && data[0] == 1) ==>
      Applied(s, p, data, pad) == s.(rejected := s.rejected + 1)
  {
  }

  ghost function ButtonsOf(s: Injector, p: byte): (held: set<nat>) {
    var i := IndexOf(s.clients, p);
    if i < |s.clients| then HeldBy(s.clients[i].mouseButtons) else {}
  }

  /**
   * Buttons are another matter: a change of permissions leaves a player without flagged buttons exactly when the
   * keyboard is revoked too or none were flagged, and the system holds none of them any more exactly when the keyboard
   * is revoked too or it held none. Revoking the mouse alone does not release them. Other buttons are left alone.
   */
  lemma ButtonsReleasedExactly(s: Injector, p: byte, perms: Permissions)
    requires Valid(s)
    ensures var s' := Permitted(s, p, perms);
      && (ButtonsOf(s', p) == {} <==> !perms.keyboard || ButtonsOf(s, p) == {})
      && (s'.osButtons !! ButtonsOf(s, p) <==> !perms.keyboard || s.osButtons !! ButtonsOf(s, p))
      && s'.osButtons - ButtonsOf(s, p) == s.osButtons - ButtonsOf(s, p)
  {
    var cs, i := Ensured(s.clients, p), IndexOf(s.clients, p);
    var changed := s.(clients := cs[i := cs[i].(perms := perms)]);
    SameIndex(changed.clients, s.clients, p);
    assert Ensured(changed.clients, p) == changed.clients;
    var s' := Permitted(s, p, perms);
    SameIndex(s'.clients, s.clients, p);
  }

  /** A button pressed with the mouse allowed stays down in the system when the mouse, and only the mouse, is revoked. */
  lemma MouseRevokedStillHeld()
    ensures var all := Permissions(true, true, true, true);
      var press := [1, BUTTON_DOWN, 0] + seq(16, _ => 0);
      var s := Run([SetPermissions(0, all), ApplyInput(0, press, false), SetPermissions(0, all.(mouse := false))]);
      0 in s.osButtons && |s.clients| == 1 && !s.clients[0].perms.mouse
  {
    var all := Permissions(true, true, true, true);
    var press := [1, BUTTON_DOWN, 0] + seq(16, _ => 0);
    var ops := [SetPermissions(0, all), ApplyInput(0, press, false), SetPermissions(0, all.(mouse := false))];
    assert ops[..2] == [ops[0], ops[1]] && ops[..2][..1] == [ops[0]] && ops[..1][..0] == [];
    assert Run(ops[..1]).clients == [NewClient(0).(perms := all)];
    assert Run(ops[..2]).osButtons == {0};
  }

  // ---------- the object ----------

  class InputInjector {
    var clients: seq<PerClient>
    var injectedEvents: nat
    var rejectedEvents: nat
    /** What the operating system takes to be held. */
    ghost var osKeys: set<nat>
    ghost var osButtons: set<nat>

    ghost function State(): (s: Injector)
      reads this
    {
      Injector(clients, osKeys, osButtons, injectedEvents, rejectedEvents)
    }

    /** What every run keeps: whatever is held is on some player's record, and keys only with permission. */
    ghost predicate Safe()
      reads this
    {
      Covered(State()) && KeysNeedPermission(State())
    }

    constructor ()
      ensures Safe() && State() == Run([])
    {
      clients, injectedEvents, rejectedEvents := [], 0, 0;
      osKeys, osButtons := {}, {};
    }

    method EnsureClient(p: byte) returns (i: nat)
      modifies this`clients
      ensures clients == Ensured(old(clients), p) && i == IndexOf(old(clients), p)
    {
      i := 0;
      while i < |clients|
        invariant i <= |clients|
        invariant forall k :: 0 <= k < i ==> clients[k].playerIndex != p
      {
        if clients[i].playerIndex == p {
          return;
        }
        i := i + 1;
      }
      clients := clients + [NewClient(p)];
    }

    method ReleaseAllKeys(p: byte)
      requires Valid(State())
      modifies this
      ensures State() == Released(old(State()), p)
    {
      var i := EnsureClient(p);
      var c := clients[i];
      assert WellFormed(c);
      ReleaseKeys(c.keysDown);
      ReleaseButtons(c.mouseButtons);
      clients := clients[i := Cleared(c)];
    }

    /** Releases each flagged key, clearing its flag, from 1 up. */
    method ReleaseKeys(keysDown: seq<bool>)
      requires |keysDown| == KEYS && !keysDown[0]
      modifies this`osKeys
      ensures osKeys == old(osKeys) - HeldBy(keysDown)
    {
      var flags := keysDown;
      for vk := 1 to KEYS
        invariant |flags| == KEYS && flags[vk..] == keysDown[vk..]
        invariant osKeys == old(osKeys) - HeldBy(keysDown[..vk])
        invariant HeldBy(flags[..vk]) == {}
      {
        HeldByNext(keysDown, vk);
        if flags[vk] {
          osKeys := osKeys - {vk};
          flags := flags[vk := false];
        }
        HeldByNext(flags, vk);
      }
      assert keysDown[..KEYS] == keysDown;
    }

    method ReleaseButtons(mouseButtons: seq<bool>)
      requires |mouseButtons| == BUTTONS
      modifies this`osButtons
      ensures osButtons == old(osButtons) - HeldBy(mouseButtons)
    {
      for b := 0 to BUTTONS
        invariant osButtons == old(osButtons) - HeldBy(mouseButtons[..b])
      {
        HeldByNext(mouseButtons, b);
        if mouseButtons[b] {
          osButtons := osButtons - {b};
        }
      }
      assert mouseButtons[..BUTTONS] == mouseButtons;
    }

    method SetPermissions(p: byte, perms: Permissions)
      requires Safe()
      modifies this
      ensures Safe() && State() == Permitted(old(State()), p, perms)
    {
      var i := EnsureClient(p);
      clients := clients[i := clients[i].(perms := perms)];
      if !perms.keyboard {
        ReleaseAllKeys(p);
      }
      PermittedKeeps(old(State()), p, perms);
    }

    /** Permissions are checked on every packet. */
    method ApplyInput(p: byte, data: seq<byte>, padTakesIt: bool)
      requires Safe()
      modifies this
      ensures Safe() && State() == Applied(old(State()), p, data, padTakesIt)
    {
      AppliedKeeps(State(), p, data, padTakesIt);
      if !(|data| == 23 && data[0] == 0) && !(|data| == 19 && data[0] == 1) {
        rejectedEvents := rejectedEvents + 1;
        return;
      }
      var i := EnsureClient(p);
      var perms := clients[i].perms;
      if data[0] == 0 {
        if !perms.controller || data[1] != 1 {
          rejectedEvents := rejectedEvents + 1;
        } else if data[2] != 0 {
          if padTakesIt {
            injectedEvents := injectedEvents + 1;
          } else {
            rejectedEvents := rejectedEvents + 1;
          }
        }
        return;
      }
      var keyboardEvent := data[1] == KEY_DOWN || data[1] == KEY_UP;
      if (keyboardEvent && !perms.keyboard) || (!keyboardEvent && !perms.mouse) {
        rejectedEvents := rejectedEvents + 1;
        return;
      }
      ApplyEvent(i, data[1], data[2]);
    }

    /** Records the flag first, then injects. */
    method ApplyEvent(i: nat, kind: byte, code: byte)
      requires i < |clients| && WellFormed(clients[i])
      modifies this
      ensures State() == Injected(old(State()), i, kind, code)
    {
      var c := clients[i];
      if kind == KEY_DOWN || kind == KEY_UP {
        if code == 0 || code >= KEYS {
          rejectedEvents := rejectedEvents + 1;
          return;
        }
        clients := clients[i := c.(keysDown := c.keysDown[code := kind == KEY_DOWN])];
        osKeys := Held(osKeys, code, kind == KEY_DOWN);
      } else if kind == BUTTON_DOWN || kind == BUTTON_UP {
        if code >= BUTTONS {
          rejectedEvents := rejectedEvents + 1;
          return;
        }
        clients := clients[i := c.(mouseButtons := c.mouseButtons[code := kind == BUTTON_DOWN])];
        osButtons := Held(osButtons, code, kind == BUTTON_DOWN);
      } else if kind != MOUSE_MOVE && kind != MOUSE_WHEEL {
        rejectedEvents := rejectedEvents + 1;
        return;
      }
      injectedEvents := injectedEvents + 1;
    }

    method ClientDisconnected(p: byte)
      requires Safe()
      modifies this
      ensures Safe() && State() == Disconnected(old(State()), p)
    {
      DisconnectedKeeps(State(), p);
      ReleaseAllKeys(p);
      var i := 0;
      while i < |clients|
        modifies {}
        invariant i <= |clients|
        invariant forall k :: 0 <= k < i ==> clients[k].playerIndex != p
      {
        if clients[i].playerIndex == p {
          break;
        }
        i := i + 1;
      }
      assert i == IndexOf(clients, p);
      if i < |clients| {
        clients := clients[..i] + clients[i + 1..];
      }
    }
  }
}

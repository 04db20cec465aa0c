/** The script's table of property listeners (kwinscript/src/windows.ts). */
module WatchTables {
  /** A connected client as the script sees it (kwinscript/src/clients.ts). */
  class Connection {
    const id: nat
    var alive: bool

    constructor (id: nat)
      ensures this.id == id && alive
    {
      this.id := id;
      alive := true;
    }
  }

  /** A window's identity; KWin never reuses one. */
  type Window = nat

  /** A handler connected to a window's `<prop>Changed` signal: it tells `conn`
      about `token`. */
  datatype Slot = Slot(window: Window, prop: string, token: string, conn: Connection)

  datatype WatchState = WatchState(window: Window, handlers: map<string, Slot>)

  class WatchTable {
    var byToken: map<string, WatchState>
    var slots: set<Slot>   // what is connected to the windows' signals

    /** Connected is exactly what is recorded, once per token and property. */
    ghost predicate Valid()
      reads this
    {
      Agree(byToken, slots)
    }

    ghost predicate Recorded(s: Slot)
      reads this
    {
      RecordedIn(byToken, s)
    }

    /** The handlers connected for `token`, by property. */
    ghost function Handlers(token: string): map<string, Slot>
      reads this
    {
      if token in byToken then byToken[token].handlers else map[]
    }

    /** The properties watched through `token`. */
    ghost function Watched(token: string): set<string>
      reads this
    {
      Handlers(token).Keys
    }

    constructor ()
      ensures Valid() && byToken == map[] && slots == {}
    {
      byToken, slots := map[], {};
    }

    method Connect(slot: Slot)
      requires Valid() && slot.prop !in Watched(slot.token)
      requires slot.token in byToken ==> byToken[slot.token].window == slot.window
      modifies this
      ensures Valid() && slots == old(slots) + {slot}
      ensures var before := if slot.token in old(byToken) then old(byToken)[slot.token].handlers else map[];
              byToken == old(byToken)[slot.token := WatchState(slot.window, before[slot.prop := slot])]
    {
      var state := if slot.token in byToken then byToken[slot.token] else WatchState(slot.window, map[]);
      var handlers := state.handlers[slot.prop := slot];
      assert slot.prop in handlers;
      slots := slots + {slot};
      byToken := byToken[slot.token := state.(handlers := handlers)];
      assert byToken - {slot.token} == old(byToken) - {slot.token};
      hide Agree;
      StillAgree(old(byToken), old(slots), byToken, slots, slot.token);
    }

    method Disconnect(token: string, prop: string)
      requires Valid() && prop in Watched(token)
      modifies this
      ensures Valid() && slots == old(slots) - {old(byToken)[token].handlers[prop]}
      ensures var rest := old(byToken)[token].handlers - {prop};
              byToken == if rest == map[] then old(byToken) - {token}
                         else old(byToken)[token := WatchState(old(byToken)[token].window, rest)]
    {
      var state := byToken[token];
      slots := slots - {state.handlers[prop]};
      var rest := state.handlers - {prop};
      assert forall s :: s in slots && s.token == token ==> RecordedIn(byToken, s) && s.prop in rest.Keys;
      if rest == map[] {
        byToken := byToken - {token};
      } else {
        byToken := byToken[token := state.(handlers := rest)];
      }
      assert byToken - {token} == old(byToken) - {token};
      hide Agree;
      StillAgree(old(byToken), old(slots), byToken, slots, token);
    }

    /** Connect or disconnect the listener for one property. Repeating a request
        changes nothing. */
    method SetWatch(token: string, conn: Connection, window: Window, prop: string, enable: bool)
      returns (connected: bool)
      requires Valid()
      requires token in byToken ==> byToken[token].window == window
      modifies this
      ensures Valid() && connected == enable
      ensures Watched(token) == if enable then old(Watched(token)) + {prop} else old(Watched(token)) - {prop}
      ensures token in byToken ==> byToken[token].window == window
      ensures forall p :: p in Watched(token) ==>
                byToken[token].handlers[p]
                  == if p in old(Watched(token)) then old(byToken)[token].handlers[p] else Slot(window, p, token, conn)
      ensures byToken - {token} == old(byToken) - {token}
    {
      hide WatchTable.Valid, Fits;
      connected := enable;
      if enable {
        if prop !in (if token in byToken then byToken[token].handlers else map[]) {
          Connect(Slot(window, prop, token, conn));
        }
      } else if token in byToken && prop in byToken[token].handlers {
        Disconnect(token, prop);
      }
    }

    lemma HandlersOf(t: string)
      requires Valid() && t in byToken
      ensures forall s :: s in slots ==> (s.token == t <==> s in byToken[t].handlers.Values)
    {
    }

    method Forget(t: string)
      requires Valid()
      modifies this
      ensures Valid() && byToken == old(byToken) - {t}
      ensures forall s :: s in slots <==> s in old(slots) && s.token != t
    {
      if t !in byToken {
        return;
      }
      HandlersOf(t);
      hide Agree;
      slots := slots - byToken[t].handlers.Values;
      byToken := byToken - {t};
      StillAgree(old(byToken), old(slots), byToken, slots, t);
    }

    /** Forget the listeners of some tokens. (A disconnect that throws because the
        window is destroyed leaves nothing connected either.) */
    method DropClientWatches(tokens: set<string>)
      requires Valid()
      modifies this
      ensures Valid() && byToken == old(byToken) - tokens
      ensures forall s :: s in slots <==> s in old(slots) && s.token !in tokens
    {
      hide WatchTable.Valid, Fits;
      var left := tokens;
      while left != {}
        invariant left <= tokens && Valid()
        invariant byToken == old(byToken) - (tokens - left)
        invariant forall s :: s in slots <==> s in old(slots) && s.token !in tokens - left
        decreases left
      {
        var t :| t in left;
        Forget(t);
        left := left - {t};
      }
    }
  }

  ghost predicate Agree(m: map<string, WatchState>, slots: set<Slot>) {
    && (forall s :: s in slots ==> RecordedIn(m, s))
    && (forall t :: t in m ==> HandlersFit(m[t], t, slots))
  }

  /** A change that concerns one token only need be checked for that token. */
  lemma StillAgree(m: map<string, WatchState>, slots: set<Slot>, now: map<string, WatchState>, left: set<Slot>,
                   token: string)
    requires Agree(m, slots) && now - {token} == m - {token}
    requires forall s :: s in slots && s.token != token ==> s in left
    requires forall s :: s in left ==> if s.token == token then RecordedIn(now, s) else s in slots
    requires token in now ==> HandlersFit(now[token], token, left)
    ensures Agree(now, left)
  {
    SameElsewhere(now, m, token);
    SameElsewhere(m, now, token);
    forall t | t in now && t != token ensures HandlersFit(now[t], t, left) {
      assert HandlersFit(m[t], t, slots);
      forall p | p in now[t].handlers ensures now[t].handlers[p] in left {
        assert Fits(m[t].handlers[p], t, p, m[t].window);
      }
    }
    forall s | s in left ensures RecordedIn(now, s) {
      if s.token != token {
        assert RecordedIn(m, s);
      }
    }
  }

  lemma SameElsewhere<K, V>(m: map<K, V>, n: map<K, V>, k: K)
    requires m - {k} == n - {k}
    ensures forall t :: t in m && t != k ==> t in n && m[t] == n[t]
  {
    forall t | t in m && t != k ensures t in n && m[t] == n[t] {
      assert t in m - {k} && (m - {k})[t] == m[t];
    }
  }

  ghost predicate RecordedIn(m: map<string, WatchState>, s: Slot) {
    s.token in m && s.prop in m[s.token].handlers && m[s.token].handlers[s.prop] == s
  }

  /** A token's handlers are connected, each for its property, and there is one. */
  ghost predicate HandlersFit(state: WatchState, token: string, slots: set<Slot>) {
    && state.handlers != map[]
    && forall p :: p in state.handlers ==> state.handlers[p] in slots && Fits(state.handlers[p], token, p, state.window)
  }

  /** `s` listens for `prop` of `window` on behalf of `token`. */
  ghost predicate Fits(s: Slot, token: string, prop: string, window: Window) {
    s.token == token && s.prop == prop && s.window == window
  }
}

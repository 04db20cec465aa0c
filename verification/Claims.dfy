/** The window-claim protocol of the KWin script: tokens, the windows they are
    bound to, and what their owners are told (kwinscript/src/tokens.ts). */
module Claims {
  import opened Options
  import opened WatchTables

  const TOKEN_LENGTH := 20
  const MAX_VALIDATE_TIMEOUT_MS := 3_600_000

  datatype Reason = Timeout | WindowClosed | Ambiguous | Superseded
  datatype Notice = Validated(window: Window) | Invalidated(reason: Reason, last: Option<Window>)
  datatype State = Pending | Active

  /** All that may ever be said about one token. */
  ghost predicate LegalTrace(told: seq<Notice>) {
    || told == []
    || (|told| == 1 && (told[0].Validated? || told[0] == Invalidated(Timeout, None)))
    || (|told| == 2 && told[0].Validated? && told[1].Invalidated? && told[1].reason != Timeout
        && told[1].last == Some(told[0].window))
  }

  class TokenEntry {
    const token: string
    const conn: Connection
    var state: State
    var window: Option<Window>
    var deadline: bool               // the validate-deadline timer is running
    ghost var matched: set<Window>   // windows whose caption began with it in time

    constructor (token: string, conn: Connection)
      ensures this.token == token && this.conn == conn && state == Pending && window == None
      ensures deadline && matched == {}
    {
      this.token, this.conn := token, conn;
      state, window, deadline, matched := Pending, None, true, {};
    }
  }

  /** The notices about one entry among all that were sent. */
  ghost function About(log: seq<(TokenEntry, Notice)>, e: TokenEntry): seq<Notice> {
    if log == [] then []
    else About(log[..|log| - 1], e) + if log[|log| - 1].0 == e then [log[|log| - 1].1] else []
  }

  /** All there is to know about one entry. */
  datatype Facts = Facts(state: State, window: Option<Window>, matched: set<Window>, deadline: bool,
                         registered: bool, bound: bool, told: seq<Notice>, alive: bool)

  /** State, binding and what was said so far agree. A registered token whose owner
      listens has been announced exactly if it is active, and one that is gone has
      been withdrawn. */
  ghost predicate Sound(f: Facts) {
    && LegalTrace(f.told)
    && (f.registered && f.state == Pending ==> f.window == None && f.told == [])
    && (f.registered && f.state == Active ==>
          f.window.Some? && f.bound && (f.told == [Validated(f.window.value)] || (f.told == [] && !f.alive)))
    && (!f.registered && f.alive ==>
          f.told != [] && f.told[|f.told| - 1].Invalidated? && f.told[|f.told| - 1].last == f.window)
  }

  /** The window it is bound to is the only one that ever matched in time. */
  ghost predicate Unambiguous(f: Facts) {
    f.matched == if f.window.Some? then {f.window.value} else {}
  }

  /** ... and a token is withdrawn as ambiguous exactly if a second window matched. */
  ghost predicate Standing(f: Facts) {
    && Sound(f)
    && (f.registered ==> Unambiguous(f))
    && (!f.registered && f.alive ==> (f.told[|f.told| - 1].reason == Ambiguous <==> !Unambiguous(f)))
  }

  /** A pending token at the moment a window matches it. */
  ghost function JustMatched(w: Window, alive: bool): Facts {
    Facts(Pending, None, {w}, true, true, false, [], alive)
  }

  /** The deadline runs only for registered tokens, and for every pending one. */
  ghost predicate Timed(f: Facts) {
    && (f.deadline ==> f.registered)
    && (f.registered && f.state == Pending ==> f.deadline)
  }

  datatype Resolved = Bound(window: Window) | Unknown | Foreign | Unbound

  /** The first characters of a caption, as a token to look up. */
  function Prefix(caption: string): string {
    if |caption| < TOKEN_LENGTH then "" else caption[..TOKEN_LENGTH]
  }

  class TokenRegistry {
    var byToken: map<string, TokenEntry>
    var byWindow: map<Window, TokenEntry>
    const watches: WatchTable
    var captions: map<Window, string>          // KWin's live windows
    ghost var all: set<TokenEntry>             // every entry ever made
    ghost var log: seq<(TokenEntry, Notice)>   // every notice sent, in order

    ghost predicate Registered(e: TokenEntry)
      reads this
    {
      e.token in byToken && byToken[e.token] == e
    }

    ghost function FactsOf(e: TokenEntry): Facts
      reads this, e, e.conn
    {
      Facts(e.state, e.window, e.matched, e.deadline, Registered(e),
            e.window.Some? && e.window.value in byWindow && byWindow[e.window.value] == e,
            About(log, e), e.conn.alive)
    }

    ghost predicate EntryOk(e: TokenEntry)
      reads this, e, e.conn
    {
      Standing(FactsOf(e)) && Timed(FactsOf(e))
    }

    /** The two indexes describe the same bindings. */
    ghost predicate Indexed()
      reads this, all
    {
      && (forall i :: 0 <= i < |log| ==> log[i].0 in all)
      && (forall t :: t in byToken ==> byToken[t] in all && byToken[t].token == t && |t| == TOKEN_LENGTH)
      && (forall w :: w in byWindow ==>
            byWindow[w] in all && Registered(byWindow[w]) && byWindow[w].state == Active
            && byWindow[w].window == Some(w) && w in captions)
    }

    /** ... and every entry, but for some, is in order. */
    ghost predicate Core(except: set<TokenEntry>)
      reads this, all, set e | e in all :: e.conn
    {
      && Indexed()
      && forall e :: e in all && e !in except ==> EntryOk(e)
    }

    lemma TokenKnown(t: string)
      requires Valid() && t in byToken
      ensures byToken[t] in all
    {
    }

    lemma HolderKnown(w: Window)
      requires Valid()
      ensures Holder(w) <= all && byWindow.Keys <= captions.Keys
    {
    }

    lemma ClaimedKnown(caption: string)
      requires Valid()
      ensures Claimed(caption) <= all
    {
    }

    lemma EntryStands(e: TokenEntry)
      requires Core({}) && e in all
      ensures Standing(FactsOf(e)) && Timed(FactsOf(e)) && Sound(FactsOf(e)) && Core({e})
      ensures var f := FactsOf(e);
              f.state == e.state && f.window == e.window && f.deadline == e.deadline && f.registered == Registered(e)
      ensures Registered(e) ==> Unambiguous(FactsOf(e))
      ensures Registered(e) && e.state == Pending ==> e.window == None
      ensures Registered(e) && e.state == Active ==> e.window.Some?
    {
      assert EntryOk(e);
    }

    lemma CoreIsIndexed(odd: set<TokenEntry>)
      requires Core(odd)
      ensures Indexed()
    {
    }

    lemma CoreIsWhole(e: TokenEntry)
      requires Core({e}) && Standing(FactsOf(e)) && Timed(FactsOf(e))
      ensures Core({})
    {
    }

    lemma InOrderAgain(e: TokenEntry, odd: set<TokenEntry>)
      requires Core(odd) && Standing(FactsOf(e)) && Timed(FactsOf(e))
      ensures Core(odd - {e})
    {
    }

    /** Listeners exist only for active tokens, on the bound window, for the owner. */
    ghost predicate WatchesAgree(except: set<string>)
      reads `byToken, `all, all, watches
    {
      forall t :: t in watches.byToken && t !in except ==>
        t in byToken && byToken[t] in all && WatchOk(byToken[t], watches.byToken[t])
    }

    ghost predicate Valid()
      reads this, all, set e | e in all :: e.conn, watches
    {
      Core({}) && watches.Valid() && WatchesAgree({})
    }

    constructor ()
      ensures Valid() && byToken == map[] && byWindow == map[] && all == {} && captions == map[] && log == []
                && fresh(watches)
    {
      byToken, byWindow, captions := map[], map[], map[];
      watches := new WatchTable();
      all, log := {}, [];
    }

    /** If the facts about all other entries are what they were, those are in order. */
    twostate lemma OthersKept(new e: TokenEntry, odd: set<TokenEntry>)
      requires old(Core(odd)) && Indexed() && all == old(all) && e in odd
      requires forall x :: x in all && x != e ==> FactsOf(x) == old(FactsOf(x))
      ensures Core(odd)
    {
      hide FactsOf, Indexed, Standing, Timed;
      assert forall x :: x in all && x !in odd ==> old(EntryOk(x));
    }

    twostate lemma Discarded(e: TokenEntry)
      requires e.token in old(byToken) && old(byToken)[e.token] == e && byToken == old(byToken) - {e.token}
      requires byWindow == old(byWindow)
            || (exists w :: w in old(byWindow) && old(byWindow)[w] == e && byWindow == old(byWindow) - {w})
      requires log == old(log)
      requires forall x :: x in old(all) && x != e ==> unchanged(x) && x.conn.alive == old(x.conn.alive)
      ensures forall x :: x in old(all) && x != e ==> FactsOf(x) == old(FactsOf(x))
    {
      hide About;
    }

    lemma BoundIfActive(e: TokenEntry)
      requires Sound(FactsOf(e)) && Registered(e)
      ensures e.state == Active ==> e.window.Some? && e.window.value in byWindow && byWindow[e.window.value] == e
      ensures e.state == Pending ==> e.window == None
    {
    }

    /** Stop the deadline and take the entry out of both indexes. */
    method Discard(e: TokenEntry, ghost odd: set<TokenEntry>)
      requires e in all && e in odd && Core(odd) && Sound(FactsOf(e)) && Registered(e)
      modifies `byToken, `byWindow, e`deadline
      ensures Core(odd) && !Registered(e) && !e.deadline
      ensures FactsOf(e) == old(FactsOf(e)).(registered := false, bound := false, deadline := false)
      ensures byToken == old(byToken) - {e.token}
      ensures byWindow == if e.state == Active then old(byWindow) - {e.window.value} else old(byWindow)
    {
      hide LegalTrace, About, Sound, Unambiguous, Standing, Timed, EntryOk;
      BoundIfActive(e);
      e.deadline := false;
      if e.state == Active && e.window.Some? {
        byWindow := byWindow - {e.window.value};
      }
      byToken := byToken - {e.token};
      assert FactsOf(e) == old(FactsOf(e)).(registered := false, bound := false, deadline := false);
      assert Indexed() by { hide FactsOf; }
      Discarded(e);
      hide FactsOf, Indexed;
      OthersKept(e, odd);
    }

    /** Tell the owner, unless it has disconnected. */
    method Notify(e: TokenEntry, n: Notice, ghost odd: set<TokenEntry>)
      requires e in all && e in odd && Core(odd)
      modifies `log
      ensures Core(odd)
      ensures log == if e.conn.alive then old(log) + [(e, n)] else old(log)
      ensures FactsOf(e) == old(FactsOf(e)).(told := old(FactsOf(e)).told + if e.conn.alive then [n] else [])
    {
      if e.conn.alive {
        log := log + [(e, n)];
        assert log[..|log| - 1] == old(log);
      }
      assert FactsOf(e) == old(FactsOf(e)).(told := old(FactsOf(e)).told + if e.conn.alive then [n] else []);
      hide LegalTrace, Sound, Unambiguous, Standing, Timed, EntryOk;
      assert Indexed() by { hide FactsOf; }
      OthersKept(e, odd);
    }

    /** Take the entry and its property listeners away. */
    method Retire(e: TokenEntry, ghost odd: set<TokenEntry>)
      requires e in all && e in odd && Core(odd) && Sound(FactsOf(e)) && Registered(e)
      requires watches.Valid() && WatchesAgree({})
      modifies `byToken, `byWindow, e`deadline, watches
      ensures Core(odd) && watches.Valid() && WatchesAgree({}) && !e.deadline
      ensures FactsOf(e) == old(FactsOf(e)).(registered := false, bound := false, deadline := false)
      ensures byToken == old(byToken) - {e.token}
      ensures byWindow == if e.state == Active then old(byWindow) - {e.window.value} else old(byWindow)
      ensures watches.byToken == old(watches.byToken) - {e.token}
    {
      assert forall t :: t in byToken && t != e.token ==> byToken[t] != e;
      hide About, WatchTable.Valid, Sound, Unambiguous, Standing, Timed, LegalTrace, FactsOf, EntryOk, Core, WatchOk;
      Discard(e, odd);
      watches.DropClientWatches({e.token});
    }

    /** Remove a token and tell its owner why. (Entries in `odd` are being worked on
        by the caller.) */
    method Invalidate(e: TokenEntry, reason: Reason, ghost odd: set<TokenEntry>)
      requires e in all && e in odd && Core(odd) && Sound(FactsOf(e)) && Registered(e)
      requires watches.Valid() && WatchesAgree({})
      requires reason == Timeout <==> e.state == Pending
      requires reason == Ambiguous <==> !Unambiguous(FactsOf(e))
      modifies `byToken, `byWindow, `log, e`deadline, watches
      ensures Core(odd - {e}) && watches.Valid() && WatchesAgree({}) && !e.deadline
      ensures byToken == old(byToken) - {e.token}
      ensures byWindow == if e.state == Active then old(byWindow) - {e.window.value} else old(byWindow)
      ensures watches.byToken == old(watches.byToken) - {e.token}
      ensures log == old(log) + if e.conn.alive then [(e, Invalidated(reason, e.window))] else []
    {
      ghost var f := FactsOf(e);
      assert f.registered && f.state == e.state && f.window == e.window && f.alive == e.conn.alive;
      hide About, WatchTable.Valid, Sound, Unambiguous, Standing, Timed, LegalTrace, FactsOf, EntryOk, Core, WatchOk,
           WatchesAgree;
      Retire(e, odd);
      Withdraw(e, reason, f, odd);
    }

    /** The last word about an entry, which stood at `f` before it was retired. */
    method Withdraw(e: TokenEntry, reason: Reason, ghost f: Facts, ghost odd: set<TokenEntry>)
      requires e in all && e in odd && Core(odd)
      requires Sound(f) && f.registered
      requires (reason == Timeout <==> f.state == Pending) && (reason == Ambiguous <==> !Unambiguous(f))
      requires FactsOf(e) == f.(registered := false, bound := false, deadline := false)
      modifies `log
      ensures Core(odd - {e})
      ensures log == old(log) + if e.conn.alive then [(e, Invalidated(reason, e.window))] else []
    {
      assert f.window == e.window && f.alive == e.conn.alive;
      hide About, Sound, Unambiguous, Standing, Timed, LegalTrace, FactsOf, EntryOk, Core;
      Notify(e, Invalidated(reason, e.window), odd);
      EndsWell(f, reason, FactsOf(e));
      InOrderAgain(e, odd);
    }

    /** Make `w` the window of the pending entry that it has just matched. */
    method Bind(e: TokenEntry, w: Window)
      requires e in all && Core({e}) && FactsOf(e) == JustMatched(w, e.conn.alive)
      requires w in captions && w !in byWindow
      modifies `byWindow, e`state, e`window
      ensures Core({e}) && byWindow == old(byWindow)[w := e] && e.state == Active && e.window == Some(w)
      ensures FactsOf(e) == Facts(Active, Some(w), {w}, true, true, true, [], e.conn.alive)
    {
      assert Registered(e) && e.state == Pending && e.deadline && About(log, e) == [] && e.matched == {w};
      hide LegalTrace, About, Sound, Unambiguous, Standing, Timed, EntryOk;
      e.state, e.window := Active, Some(w);
      byWindow := byWindow[w := e];
      assert FactsOf(e) == Facts(Active, Some(w), {w}, true, true, true, [], e.conn.alive);
      assert Indexed() by { hide FactsOf; }
      OthersKept(e, {e});
    }

    /** Whoever holds the window; `Validate` may withdraw it. */
    ghost function Holder(w: Window): set<TokenEntry>
      reads this
    {
      if w in byWindow then {byWindow[w]} else {}
    }

    ghost function HeldBy(w: Window): set<string>
      reads this
    {
      if w in byWindow then {byWindow[w].token} else {}
    }

    /** What is sent when the holder of a window is withdrawn. */
    ghost function Withdrawal(w: Window, reason: Reason): seq<(TokenEntry, Notice)>
      reads this, Holder(w), set e | e in Holder(w) :: e.conn
    {
      if w in byWindow && byWindow[w].conn.alive then [(byWindow[w], Invalidated(reason, Some(w)))] else []
    }

    lemma HolderIsActive(w: Window, odd: set<TokenEntry>)
      requires Core(odd) && w in byWindow && byWindow[w] !in odd
      ensures var e := byWindow[w]; e in all && Registered(e) && e.state == Active && e.window == Some(w)
      ensures var f := FactsOf(byWindow[w]); Sound(f) && Unambiguous(f)
      ensures Core(odd + {byWindow[w]})
    {
      assert EntryOk(byWindow[w]);
    }

    /** Withdraw the token that holds the window, if there is one. */
    method Release(w: Window, reason: Reason, ghost odd: set<TokenEntry>)
      requires Core(odd) && watches.Valid() && WatchesAgree({}) && Holder(w) !! odd
      requires reason == Superseded || reason == WindowClosed
      modifies `byToken, `byWindow, `log, Holder(w)`deadline, watches
      ensures Core(odd) && watches.Valid() && WatchesAgree({}) && byWindow == old(byWindow) - {w}
      ensures byToken == old(byToken) - old(HeldBy(w))
      ensures watches.byToken == old(watches.byToken) - old(HeldBy(w))
      ensures log == old(log) + old(Withdrawal(w, reason))
    {
      hide About, WatchTable.Valid, LegalTrace, WatchOk, EntryOk, Timed, Core, WatchesAgree, Sound, Unambiguous,
           Standing, FactsOf;
      if w in byWindow {
        ghost var e := byWindow[w];
        HolderIsActive(w, odd);
        Invalidate(byWindow[w], reason, odd + {e});
        assert odd + {e} - {e} == odd;
      }
      assert log == old(log) + old(Withdrawal(w, reason));
      assert w !in old(byWindow) ==> byWindow - {w} == byWindow;
    }

    /** ... which no listener depends on yet. */
    method BindAlone(e: TokenEntry, w: Window)
      requires e in all && Core({e}) && FactsOf(e) == JustMatched(w, e.conn.alive)
      requires WatchesAgree({}) && w in captions && w !in byWindow
      modifies `byWindow, e`state, e`window
      ensures Core({e}) && WatchesAgree({})
      ensures byWindow == old(byWindow)[w := e] && e.state == Active && e.window == Some(w)
      ensures FactsOf(e) == Facts(Active, Some(w), {w}, true, true, true, [], e.conn.alive)
    {
      assert e.state == Pending;
      assert forall t :: t in watches.byToken ==> byToken[t] in all && byToken[t] != e;
      hide About, LegalTrace, Sound, Unambiguous, Standing, Timed, FactsOf, EntryOk, Core, Indexed;
      Bind(e, w);
    }

    /** Bind the entry to a free window and tell its owner. */
    method Announce(e: TokenEntry, w: Window)
      requires e in all && Core({e}) && FactsOf(e) == JustMatched(w, e.conn.alive)
      requires watches.Valid() && WatchesAgree({}) && w in captions && w !in byWindow
      modifies `byWindow, `log, e`state, e`window
      ensures Valid() && byWindow == old(byWindow)[w := e] && e.state == Active && e.window == Some(w)
      ensures log == old(log) + if e.conn.alive then [(e, Validated(w))] else []
    {
      hide About, WatchTable.Valid, LegalTrace, Sound, Unambiguous, Standing, Timed, FactsOf, EntryOk, Core,
           WatchesAgree, WatchOk, Indexed;
      BindAlone(e, w);
      Notify(e, Validated(w), {e});
      BeginsWell(FactsOf(e), w);
      CoreIsWhole(e);
    }

    /** First match: bind the token to the window. A token that held the window
        before is withdrawn, and its owner told, first. */
    method Validate(e: TokenEntry, w: Window)
      requires e in all && Core({e}) && FactsOf(e) == JustMatched(w, e.conn.alive)
      requires watches.Valid() && WatchesAgree({}) && w in captions
      modifies `byToken, `byWindow, `log, e`state, e`window, Holder(w)`deadline, watches
      ensures Valid() && byWindow == old(byWindow)[w := e] && e.state == Active && e.window == Some(w)
      ensures byToken == old(byToken) - old(HeldBy(w))
      ensures watches.byToken == old(watches.byToken) - old(HeldBy(w))
      ensures log == old(log) + old(Withdrawal(w, Superseded)) + if e.conn.alive then [(e, Validated(w))] else []
    {
      PendingHoldsNothing(e, w);
      hide TokenRegistry.Valid, WatchTable.Valid, About, LegalTrace, FactsOf, EntryOk, Core, Sound, Unambiguous,
           Standing, Timed, WatchOk, WatchesAgree;
      Rebind(byWindow, w, e);
      Release(w, Superseded, {e});
      Undisturbed(e, w);
      assert log == old(log) + old(Withdrawal(w, Superseded));
      Announce(e, w);
    }

    lemma PendingHoldsNothing(e: TokenEntry, w: Window)
      requires Core({e}) && FactsOf(e) == JustMatched(w, e.conn.alive)
      ensures Holder(w) !! {e} && e.token !in HeldBy(w) && Registered(e)
    {
    }

    /** The withdrawal of another token leaves `e` as it was. */
    twostate lemma Undisturbed(e: TokenEntry, new w: Window)
      requires old(FactsOf(e)) == JustMatched(w, old(e.conn.alive)) && old(Registered(e))
      requires old(Holder(w)) !! {e} && e.token !in old(HeldBy(w))
      requires unchanged(e) && unchanged(e.conn) && byToken == old(byToken) - old(HeldBy(w))
      requires byWindow == old(byWindow) - {w} && log == old(log) + old(Withdrawal(w, Superseded))
      ensures FactsOf(e) == JustMatched(w, e.conn.alive)
    {
      var said := old(Withdrawal(w, Superseded));
      if said != [] {
        assert log[..|log| - 1] == old(log);
      } else {
        assert log == old(log);
      }
    }

    /** The entry whose token begins this caption, if its deadline still runs. */
    ghost function Claimed(caption: string): set<TokenEntry>
      reads this, byToken.Values
    {
      if Prefix(caption) in byToken && byToken[Prefix(caption)].deadline then {byToken[Prefix(caption)]} else {}
    }

    /** What a match in time does. The first window is bound, and whoever held it is
        withdrawn before that; another window makes the token ambiguous; the same
        window again changes nothing. */
    twostate predicate Answered(e: TokenEntry, new w: Window)
      reads this, e, e.conn, watches
    {
      match old(e.window)
      case None =>
        && byWindow == old(byWindow)[w := e] && byToken == old(byToken) - old(HeldBy(w))
        && watches.byToken == old(watches.byToken) - old(HeldBy(w))
        && e.state == Active && e.window == Some(w) && e.deadline
        && log == old(log) + old(Withdrawal(w, Superseded)) + if e.conn.alive then [(e, Validated(w))] else []
      case Some(v) =>
        && e.state == old(e.state) && e.window == old(e.window)
        && if v == w then
             unchanged(`byToken) && unchanged(`byWindow) && unchanged(`log) && unchanged(watches) && unchanged(e)
           else
             && byWindow == old(byWindow) - {v} && byToken == old(byToken) - {e.token}
             && watches.byToken == old(watches.byToken) - {e.token} && !e.deadline
             && log == old(log) + if e.conn.alive then [(e, Invalidated(Ambiguous, Some(v)))] else []
    }

    /** What the new caption of a window does: a token it begins with, and whose
        deadline still runs, has met the window; nothing else happens. */
    twostate predicate Met(new w: Window, caption: string)
      reads *
    {
      && (forall e :: e in old(Claimed(caption)) ==> Answered(e, w))
      && (forall e :: e in old(all) ==> e.matched == old(e.matched) + if e in old(Claimed(caption)) then {w} else {})
      && (old(Claimed(caption)) == {} ==>
            unchanged(`byToken) && unchanged(`byWindow) && unchanged(`log) && unchanged(watches)
            && forall e :: e in old(all) ==> unchanged(e))
    }

    /** Put a match on record. Until the script has answered it, the entry may be out
        of order. */
    ghost method Record(e: TokenEntry, w: Window)
      requires Valid() && e in all
      modifies e`matched
      ensures e.matched == old(e.matched) + {w}
      ensures Core({e}) && watches.Valid() && WatchesAgree({})
      ensures FactsOf(e) == old(FactsOf(e)).(matched := old(e.matched) + {w})
    {
      hide About, Sound, Unambiguous, Standing, Timed, WatchTable.Valid, LegalTrace;
      e.matched := e.matched + {w};
      assert old(Core({e}));
      assert Indexed() && WatchesAgree({}) by { hide FactsOf, EntryOk; }
      assert FactsOf(e) == old(FactsOf(e)).(matched := old(e.matched) + {w});
      OthersKept(e, {e});
    }

    /** How a registered entry stands when a match with `w` has just been recorded. */
    ghost predicate Underway(f: Facts, w: Window) {
      && Sound(f) && f.registered
      && (f.window == None ==> f == JustMatched(w, f.alive))
      && (f.window == Some(w) ==> Standing(f) && Timed(f))
      && (f.window.Some? && f.window != Some(w) ==> f.state == Active && !Unambiguous(f))
    }

    lemma MatchBegins(e: TokenEntry, w: Window)
      requires Valid() && e in all && Registered(e) && e.deadline
      ensures Underway(FactsOf(e).(matched := e.matched + {w}), w)
      ensures e.window == Some(w) ==> e.matched + {w} == e.matched
    {
      EntryStands(e);
      Matched(FactsOf(e), w);
    }

    /** A second window: the token is withdrawn as ambiguous. */
    method Dispute(e: TokenEntry, w: Window)
      requires e in all && Core({e}) && Sound(FactsOf(e)) && !Unambiguous(FactsOf(e)) && Registered(e)
      requires watches.Valid() && WatchesAgree({}) && e.state == Active && e.window.Some? && e.window != Some(w)
      modifies `byToken, `byWindow, `log, e`deadline, watches
      ensures Valid() && Answered(e, w)
    {
      hide About, WatchTable.Valid, LegalTrace, WatchOk, WatchesAgree, FactsOf, Sound, Unambiguous, Standing, Timed,
           EntryOk, Core, Indexed;
      Invalidate(e, Ambiguous, {e});
      assert {e} - {e} == {};
    }

    /** Answer a match that was just recorded. */
    method Respond(e: TokenEntry, w: Window)
      requires e in all && w in captions && Core({e}) && watches.Valid() && WatchesAgree({}) && Underway(FactsOf(e), w)
      modifies `byToken, `byWindow, `log, e`state, e`window, e`deadline, Holder(w)`deadline, watches
      ensures Valid() && Answered(e, w)
    {
      assert e.window.Some? && e.window != Some(w) ==> Registered(e) && e.state == Active;
      hide About, WatchTable.Valid, LegalTrace, WatchOk, WatchesAgree, FactsOf, Sound, Unambiguous, Standing, Timed,
           EntryOk, Core, Indexed, JustMatched;
      if e.window == None {
        Validate(e, w);
      } else if e.window != Some(w) {
        Dispute(e, w);
      } else {
        CoreIsWhole(e);
      }
    }

    /** A registered token is matched by a window before its deadline. */
    method Match(e: TokenEntry, w: Window)
      requires Valid() && w in captions && e in all && Registered(e) && e.deadline
      modifies `byToken, `byWindow, `log, e, Holder(w)`deadline, watches
      ensures Valid() && Answered(e, w) && e.matched == old(e.matched) + {w}
    {
      hide TokenRegistry.Valid, About, WatchTable.Valid, LegalTrace, WatchOk, WatchesAgree, FactsOf, Sound,
           Unambiguous, Standing, Timed, EntryOk, Core, Indexed, JustMatched, Underway;
      MatchBegins(e, w);
      Record(e, w);
      assert HeldBy(w) == old(HeldBy(w)) && Withdrawal(w, Superseded) == old(Withdrawal(w, Superseded));
      hide HeldBy, Withdrawal;
      Respond(e, w);
    }

    twostate lemma NothingUnsaid(e: TokenEntry, new w: Window)
      requires Answered(e, w)
      ensures old(log) <= log
    {
    }

    /** A caption appeared or changed. */
    method CheckCaption(w: Window)
      requires Valid() && w in captions
      modifies `byToken, `byWindow, `log, Claimed(captions[w]), Holder(w)`deadline, watches
      ensures Valid() && old(log) <= log && Met(w, captions[w])
    {
      hide About, WatchTable.Valid, LegalTrace, WatchOk, WatchesAgree, Withdrawal, FactsOf, Sound, Standing, Timed,
           EntryOk, Answered;
      var caption := captions[w];
      if |caption| < TOKEN_LENGTH {
        return;
      }
      var prefix := caption[..TOKEN_LENGTH];
      if prefix !in byToken {
        return;
      }
      var e := byToken[prefix];
      if !e.deadline {
        return;
      }
      Match(e, w);
      NothingUnsaid(e, w);
    }

    /** The timer stops; nothing else changes. */
    method StopTimer(e: TokenEntry)
      requires Valid() && e in all
      modifies e`deadline
      ensures Core({e}) && WatchesAgree({}) && !e.deadline && FactsOf(e) == old(FactsOf(e)).(deadline := false)
    {
      hide About, LegalTrace, Sound, Unambiguous, Standing, Timed, WatchTable.Valid, EntryOk;
      e.deadline := false;
      assert Indexed() && WatchesAgree({}) by { hide FactsOf; }
      assert old(Core({e}));
      OthersKept(e, {e});
    }

    /** The deadline timer of `e` fires (and, being single-shot, stops). */
    method OnTokenDeadline(e: TokenEntry)
      requires Valid() && e in all && e.deadline
      modifies `byToken, `byWindow, `log, e`deadline, watches
      ensures Valid() && !e.deadline
      ensures e.state == Pending ==> byToken == old(byToken) - {e.token} && byWindow == old(byWindow)
      ensures e.state == Pending ==> log == old(log) + if e.conn.alive then [(e, Invalidated(Timeout, None))] else []
      ensures e.state == Pending ==> watches.byToken == old(watches.byToken) - {e.token}
      ensures e.state == Active ==> unchanged(this) && unchanged(watches)
    {
      EntryStands(e);
      StopsWell(FactsOf(e));
      hide About, WatchTable.Valid, LegalTrace, WatchOk, EntryOk, Core, FactsOf, Sound, Unambiguous, Standing, Timed,
           WatchesAgree;
      StopTimer(e);
      if e.state == Pending {
        Invalidate(e, Timeout, {e});
        assert {e} - {e} == {};
      } else {
        CoreIsWhole(e);
      }
    }

    /** The caption of a new or a live window is known, and then checked. */
    method SetTitle(w: Window, caption: string)
      requires Valid()
      modifies `captions, `byToken, `byWindow, `log, Claimed(caption), Holder(w)`deadline, watches
      ensures Valid() && captions == old(captions)[w := caption] && old(log) <= log && Met(w, caption)
    {
      hide TokenRegistry.Valid, About;
      HolderKnown(w);
      SetCaptions(captions[w := caption]);
      ghost var claimed := Claimed(caption);
      assert claimed == old(Claimed(caption)) && HeldBy(w) == old(HeldBy(w));
      assert Withdrawal(w, Superseded) == old(Withdrawal(w, Superseded));
      hide Claimed, HeldBy, Withdrawal;
      label Set:
      CheckCaption(w);
      assert forall e :: e in all ==> e.matched == old(e.matched) + if e in claimed then {w} else {};
      forall e | e in claimed ensures Answered(e, w) {
        assert Answered@Set(e, w);
      }
      hide Answered;
    }

    /** A window appears, with its first caption. */
    method OnWindowAdded(w: Window, caption: string)
      requires Valid() && w !in captions
      modifies `captions, `byToken, `byWindow, `log, Claimed(caption), watches
      ensures Valid() && captions == old(captions)[w := caption] && old(log) <= log && Met(w, caption)
    {
      hide TokenRegistry.Valid, Met;
      HolderKnown(w);
      SetTitle(w, caption);
    }

    /** The caption signal of a live window. */
    method OnCaptionChanged(w: Window, caption: string)
      requires Valid() && w in captions
      modifies `captions, `byToken, `byWindow, `log, Claimed(caption), Holder(w)`deadline, watches
      ensures Valid() && captions == old(captions)[w := caption] && old(log) <= log && Met(w, caption)
    {
      hide TokenRegistry.Valid, Met;
      SetTitle(w, caption);
    }

    method SetCaptions(now: map<Window, string>)
      requires Valid() && byWindow.Keys <= now.Keys
      modifies `captions
      ensures Valid() && captions == now
    {
      hide About, WatchTable.Valid, LegalTrace, WatchOk, Sound, Unambiguous, Standing, Timed;
      captions := now;
      assert forall x :: x in all ==> FactsOf(x) == old(FactsOf(x)) && old(EntryOk(x));
      hide FactsOf;
    }

    /** A window goes away, and the token bound to it with it. */
    method OnWindowRemoved(w: Window)
      requires Valid()
      modifies `captions, `byToken, `byWindow, `log, Holder(w)`deadline, watches
      ensures Valid() && captions == old(captions) - {w} && byWindow == old(byWindow) - {w}
      ensures byToken == old(byToken) - old(HeldBy(w))
      ensures watches.byToken == old(watches.byToken) - old(HeldBy(w))
      ensures log == old(log) + old(Withdrawal(w, WindowClosed))
    {
      hide About, WatchTable.Valid, LegalTrace, WatchOk, WatchesAgree, Sound, Unambiguous, Standing, Timed, FactsOf,
           EntryOk;
      assert byWindow.Keys <= captions.Keys;
      Release(w, WindowClosed, {});
      SetCaptions(captions - {w});
    }

    /** The first of the random draws that is not in use. */
    method GenerateToken(draws: seq<string>) returns (token: string)
      requires exists i :: 0 <= i < |draws| && draws[i] !in byToken  // sampling does not fail forever
      ensures token in draws && token !in byToken
    {
      for i := 0 to |draws|
        invariant forall j :: 0 <= j < i ==> draws[j] in byToken
      {
        if draws[i] !in byToken {
          return draws[i];
        }
      }
      assert false;
      token := "";
    }

    /** token.request: a new pending token for `conn`, its deadline running. */
    method TokenRequest(conn: Connection, timeout: int, draws: seq<string>) returns (r: Option<string>)
      requires Valid()
      requires forall d :: d in draws ==> |d| == TOKEN_LENGTH
      requires exists i :: 0 <= i < |draws| && draws[i] !in byToken
      modifies `byToken, `all
      ensures Valid() && (r.Some? <==> 1 <= timeout <= MAX_VALIDATE_TIMEOUT_MS)
      ensures r == None ==> byToken == old(byToken) && all == old(all)
      ensures r.Some? ==> r.value !in old(byToken) && byToken.Keys == old(byToken).Keys + {r.value}
      ensures r.Some? ==> forall t :: t in old(byToken) ==> byToken[t] == old(byToken)[t]
      ensures r.Some? ==> var e := byToken[r.value]; fresh(e) && e.conn == conn && e.state == Pending && e.deadline
      ensures r.Some? ==> all == old(all) + {byToken[r.value]}
    {
      if timeout < 1 || timeout > MAX_VALIDATE_TIMEOUT_MS {
        return None;
      }
      var token := GenerateToken(draws);
      var e := new TokenEntry(token, conn);
      Enter(e);
      return Some(token);
    }

    lemma NothingIndexed(e: TokenEntry)
      requires Indexed() && e !in all
      ensures e !in byToken.Values && e !in byWindow.Values && forall i :: 0 <= i < |log| ==> log[i].0 != e
    {
    }

    method Enter(e: TokenEntry)
      requires Valid() && e !in all && e.token !in byToken && |e.token| == TOKEN_LENGTH
      requires e.state == Pending && e.window == None && e.matched == {} && e.deadline
      modifies `byToken, `all
      ensures Valid() && byToken == old(byToken)[e.token := e] && all == old(all) + {e}
    {
      hide About, WatchTable.Valid, LegalTrace, WatchOk, Sound, Unambiguous, Standing, Timed, Core, EntryOk, Indexed;
      CoreIsIndexed({});
      NothingIndexed(e);
      NothingSaidAbout(log, e);
      all := all + {e};
      byToken := byToken[e.token := e];
      assert FactsOf(e) == Facts(Pending, None, {}, true, true, false, [], e.conn.alive);
      StartsWell(FactsOf(e));
      Entered(e);
      CoreIsWhole(e);
    }

    /** A new token leaves all other entries as they were. */
    twostate lemma Entered(new e: TokenEntry)
      requires old(Core({})) && e !in old(all) && e.token !in old(byToken) && |e.token| == TOKEN_LENGTH
      requires all == old(all) + {e} && byToken == old(byToken)[e.token := e]
      requires byWindow == old(byWindow) && log == old(log) && captions == old(captions)
      requires forall x :: x in old(all) ==> unchanged(x) && x.conn.alive == old(x.conn.alive)
      ensures Core({e})
    {
      hide About, LegalTrace, Standing, Timed;
      assert Indexed() by { hide FactsOf, EntryOk; }
      assert forall x :: x in old(all) ==> FactsOf(x) == old(FactsOf(x)) && old(EntryOk(x));
      hide FactsOf, Indexed;
    }

    // ---- a client disconnects ---------------------------------------------------------

    /** The tokens of the client with this id. */
    function OwnedBy(id: nat): set<string>
      reads this
    {
      set t | t in byToken && byToken[t].conn.id == id
    }

    twostate lemma WatchesKept(e: TokenEntry, new dropped: set<string>)
      requires old(Indexed()) && old(WatchesAgree(dropped)) && e in all
      requires byToken == old(byToken) - {e.token} && all == old(all) && watches.byToken == old(watches.byToken)
      requires forall x :: x in all && x != e ==> unchanged(x)
      ensures WatchesAgree(dropped + {e.token})
    {
    }

    lemma Bindings(e: TokenEntry)
      requires Core({}) && Registered(e) && e in all
      ensures forall w :: w in byWindow ==> (byWindow[w].token == e.token <==> e.state == Active && e.window == Some(w))
    {
      EntryStands(e);
      assert EntryOk(e);
    }

    /** A token whose owner is gone is taken away without a word. */
    method DropEntry(e: TokenEntry, ghost dropped: set<string>)
      requires Core({}) && e in all && Registered(e) && !e.conn.alive
      requires WatchesAgree(dropped)
      modifies `byToken, `byWindow, e`deadline
      ensures Core({}) && WatchesAgree(dropped + {e.token})
      ensures byToken == old(byToken) - {e.token}
      ensures forall w :: w in byWindow <==> w in old(byWindow) && old(byWindow)[w].token != e.token
      ensures forall w :: w in byWindow ==> byWindow[w] == old(byWindow)[w]
    {
      EntryStands(e);
      Bindings(e);
      ghost var f := FactsOf(e);
      assert !f.alive && Indexed();
      hide About, Standing, Timed, LegalTrace, FactsOf, EntryOk, Core, Indexed, WatchesAgree;
      Discard(e, {e});
      VanishesWell(f);
      CoreIsWhole(e);
      WatchesKept(e, dropped);
    }

    method ForgetWatches(tokens: set<string>)
      requires watches.Valid() && WatchesAgree(tokens)
      modifies watches
      ensures watches.Valid() && WatchesAgree({}) && watches.byToken == old(watches.byToken) - tokens
    {
      hide WatchTable.Valid, WatchOk;
      watches.DropClientWatches(tokens);
    }

    lemma Ownership(id: nat)
      requires Core({})
      ensures forall t :: t in byToken ==> byToken[t] in all && byToken[t].token == t && Registered(byToken[t])
      ensures forall w :: w in byWindow ==> (byWindow[w].conn.id == id <==> byWindow[w].token in OwnedBy(id))
    {
    }

    /** A deadline never runs for a token that is gone. */
    lemma NoTimersLeft(id: nat)
      requires Core({}) && OwnedBy(id) == {}
      ensures forall e :: e in all && e.conn.id == id ==> !e.deadline
    {
      hide Standing, About;
      forall e | e in all && e.conn.id == id ensures !e.deadline {
        assert EntryOk(e) && e.token !in OwnedBy(id);
      }
    }

    /** The tokens of the client with this id are gone, with their window bindings,
        timers and listeners; those of all other clients are as they were, and
        nobody was told. */
    twostate predicate AllDropped(id: nat)
      reads *
    {
      && byToken == old(byToken) - old(OwnedBy(id))
      && (forall w :: w in byWindow <==> w in old(byWindow) && old(byWindow)[w].conn.id != id)
      && (forall w :: w in byWindow ==> byWindow[w] == old(byWindow)[w])
      && watches.byToken == old(watches.byToken) - old(OwnedBy(id))
      && unchanged(`log) && unchanged(`all) && unchanged(`captions)
      && (forall e :: e in old(all) && e.conn.id != id ==> unchanged(e))
      && (forall e :: e in old(all) && e.conn.id == id ==> !e.deadline)
    }

    /** Drop every token of a client that has disconnected. */
    method DropClientTokens(id: nat)
      requires Valid()
      requires forall e :: e in all && e.conn.id == id ==> !e.conn.alive
      modifies `byToken, `byWindow, (set e | e in all && e.conn.id == id)`deadline, watches
      ensures Valid() && AllDropped(id)
    {
      hide About, WatchTable.Valid, Standing, Timed, LegalTrace, FactsOf, EntryOk, WatchOk, Core, WatchesAgree;
      Ownership(id);
      var removed := OwnedBy(id);
      var left := removed;
      assert removed - left == {};
      while left != {}
        invariant Core({}) && watches.Valid() && WatchesAgree(removed - left)
        invariant watches.byToken == old(watches.byToken)
        invariant left <= removed && byToken == old(byToken) - (removed - left)
        invariant forall w :: w in byWindow <==> w in old(byWindow) && old(byWindow)[w].token !in removed - left
        invariant forall w :: w in byWindow ==> byWindow[w] == old(byWindow)[w]
        decreases left
      {
        var t :| t in left;
        assert byToken[t] == old(byToken)[t];
        assert removed - left + {t} == removed - (left - {t});
        DropEntry(byToken[t], removed - left);
        left := left - {t};
      }
      assert removed - left == removed;
      ForgetWatches(removed);
      NoTimersLeft(id);
    }

    /** From now on nothing is sent to `conn`. */
    method Silence(conn: Connection)
      requires Valid()
      modifies conn
      ensures Valid() && !conn.alive
    {
      hide About, WatchTable.Valid, Standing, Timed, LegalTrace, WatchOk, EntryOk;
      conn.alive := false;
      Silenced(conn);
    }

    twostate lemma Silenced(conn: Connection)
      requires old(Core({})) && !conn.alive
      requires unchanged(this) && forall e :: e in all ==> unchanged(e) && (e.conn != conn ==> unchanged(e.conn))
      ensures Core({})
    {
      hide About;
      assert Indexed();
      forall e | e in all ensures EntryOk(e) {
        assert old(EntryOk(e));
        FallsSilent(old(FactsOf(e)), FactsOf(e));
      }
    }

    /** A client disconnects: it is not told anything any more, and owns nothing. */
    method OnClientDisconnected(conn: Connection)
      requires Valid()
      requires forall e :: e in all && e.conn.id == conn.id ==> e.conn == conn  // ids are never reused
      modifies conn, `byToken, `byWindow, (set e | e in all && e.conn.id == conn.id)`deadline, watches
      ensures Valid() && OwnedBy(conn.id) == {} && AllDropped(conn.id) && !conn.alive
    {
      Silence(conn);
      DropClientTokens(conn.id);
    }

    // ---- using a token --------------------------------------------------------------------

    /** The window behind a token, for its owner only. */
    method ResolveTokenWindow(token: string, conn: Connection) returns (r: Resolved)
      requires Valid()
      ensures r == Unknown <==> token !in byToken
      ensures r == Foreign <==> token in byToken && byToken[token].conn != conn
      ensures r == Unbound <==> token in byToken && byToken[token].conn == conn && byToken[token].state == Pending
      ensures r.Bound? ==> r.window in byWindow && byWindow[r.window] == byToken[token] && byToken[token] in all
      ensures r.Bound? ==> byToken[token].state == Active && byToken[token].window == Some(r.window)
    {
      if token !in byToken {
        return Unknown;
      }
      var e := byToken[token];
      EntryStands(e);
      assert EntryOk(e);
      if e.conn != conn {
        return Foreign;
      }
      if e.state != Active || e.window == None {
        return Unbound;
      }
      return Bound(e.window.value);
    }

    /** window.watch: all names are checked before any listener changes. */
    method Watch(token: string, conn: Connection, info: seq<(string, bool)>) returns (r: WatchReply)
      requires Valid()
      modifies watches
      ensures Valid()
      ensures r.Refused? <==> !(token in byToken && byToken[token].conn == conn && byToken[token].state == Active)
                              || exists i :: 0 <= i < |info| && info[i].0 !in WATCH_PROPS
      ensures r.Refused? ==> watches.byToken == old(watches.byToken)
      ensures r.Now? ==> Fulfilled(old(watches.Handlers(token)), watches.Handlers(token), info)
      ensures r.Now? ==> forall p :: p in watches.Handlers(token) ==>
                           watches.Handlers(token)[p] == Slot(byToken[token].window.value, p, token, conn)
      ensures r.Now? ==> Reports(r.result, watches.Watched(token), info)
      ensures watches.byToken - {token} == old(watches.byToken) - {token}
    {
      hide About, Standing, Timed, LegalTrace, FactsOf, EntryOk, Core, WatchTable.Valid, Reports, Applied;
      var resolved := ResolveTokenWindow(token, conn);
      if !resolved.Bound? {
        return Refused;
      }
      for i := 0 to |info|
        invariant forall j :: 0 <= j < i ==> info[j].0 in WATCH_PROPS
      {
        if info[i].0 !in WATCH_PROPS {
          return Refused;
        }
      }
      HandlersAre(token, resolved.window);
      var result := SetWatches(token, conn, resolved.window, info);
      HandlersAre(token, resolved.window);
      RequestsFulfilled(old(watches.Handlers(token)), watches.Handlers(token), info);
      return Now(result);
    }

    /** Every handler of an active token is for its window and its owner. */
    lemma HandlersAre(token: string, window: Window)
      requires watches.Valid() && WatchesAgree({}) && token in byToken && byToken[token].window == Some(window)
      ensures forall p :: p in watches.Handlers(token) ==>
                watches.Handlers(token)[p] == Slot(window, p, token, byToken[token].conn)
    {
      if token in watches.byToken {
        assert WatchOk(byToken[token], watches.byToken[token]);
      }
    }

    method SetWatches(token: string, conn: Connection, window: Window, info: seq<(string, bool)>)
      returns (result: map<string, bool>)
      requires watches.Valid() && WatchesAgree({})
      requires token in byToken && byToken[token] in all && byToken[token].conn == conn
      requires byToken[token].state == Active && byToken[token].window == Some(window)
      modifies watches
      ensures watches.Valid() && WatchesAgree({})
      ensures watches.Watched(token) == Applied(old(watches.Watched(token)), info)
      ensures Reports(result, watches.Watched(token), info)
      ensures watches.byToken - {token} == old(watches.byToken) - {token}
    {
      hide WatchTable.Valid, WatchTable.Watched, WatchesAgree, WatchOk;
      result := map[];
      for i := 0 to |info|
        invariant watches.Valid() && WatchesAgree({})
        invariant watches.Watched(token) == Applied(old(watches.Watched(token)), info[..i])
        invariant watches.byToken - {token} == old(watches.byToken) - {token}
        invariant Reports(result, watches.Watched(token), info[..i])
      {
        var connected := SetWatch(token, conn, window, info[i].0, info[i].1);
        assert info[..i + 1][..i] == info[..i] && info[..i + 1][i] == info[i];
        result := result[info[i].0 := connected];
      }
      assert info[..|info|] == info;
    }

    method SetWatch(token: string, conn: Connection, window: Window, prop: string, enable: bool)
      returns (connected: bool)
      requires watches.Valid() && WatchesAgree({})
      requires token in byToken && byToken[token] in all && byToken[token].conn == conn
      requires byToken[token].state == Active && byToken[token].window == Some(window)
      modifies watches
      ensures watches.Valid() && WatchesAgree({}) && connected == enable
      ensures watches.Watched(token)
                == if enable then old(watches.Watched(token)) + {prop} else old(watches.Watched(token)) - {prop}
      ensures watches.byToken - {token} == old(watches.byToken) - {token}
    {
      hide WatchTable.Valid;
      connected := watches.SetWatch(token, conn, window, prop, enable);
      SameElsewhere(watches.byToken, old(watches.byToken), token);
    }
  }

  /** The reply names every property asked for, with whether it is watched now. */
  ghost predicate Reports(result: map<string, bool>, watched: set<string>, info: seq<(string, bool)>) {
    && (forall i :: 0 <= i < |info| ==> info[i].0 in result)
    && (forall p :: p in result ==> (exists i :: 0 <= i < |info| && info[i].0 == p) && (result[p] <==> p in watched))
  }

  predicate Asked(info: seq<(string, bool)>, p: string) {
    exists i :: 0 <= i < |info| && info[i].0 == p
  }

  /** The last request for a property is that at `i`. */
  predicate LastWord(info: seq<(string, bool)>, i: nat) {
    i < |info| && forall j :: i < j < |info| ==> info[j].0 != info[i].0
  }

  /** What a list of requests does to a token's handlers: a property it does not
      name keeps its handler, or goes on without one; a property it names has one
      afterwards exactly if its last request enables it. */
  ghost predicate Fulfilled(before: map<string, Slot>, after: map<string, Slot>, info: seq<(string, bool)>) {
    && (forall p :: !Asked(info, p) ==> (p in after <==> p in before))
    && (forall p :: !Asked(info, p) && p in before && p in after ==> after[p] == before[p])
    && (forall i: nat :: LastWord(info, i) ==> (info[i].0 in after <==> info[i].1))
  }

  lemma {:induction false} UnaskedStay(watched: set<string>, info: seq<(string, bool)>, p: string)
    requires !Asked(info, p)
    ensures p in Applied(watched, info) <==> p in watched
  {
    if info != [] {
      var front := info[..|info| - 1];
      assert info[|info| - 1].0 != p;
      assert Asked(front, p) ==> Asked(info, p);
      UnaskedStay(watched, front, p);
    }
  }

  lemma RequestsFulfilled(before: map<string, Slot>, after: map<string, Slot>, info: seq<(string, bool)>)
    requires after.Keys == Applied(before.Keys, info)
    requires forall p :: p in before && p in after ==> before[p] == after[p]
    ensures Fulfilled(before, after, info)
  {
    forall p | !Asked(info, p) ensures p in after <==> p in before {
      UnaskedStay(before.Keys, info, p);
    }
    forall i: nat | LastWord(info, i) ensures info[i].0 in after <==> info[i].1 {
      LastRequestWins(before.Keys, info, info[i].0, i);
    }
  }

  datatype WatchReply = Refused | Now(result: map<string, bool>)

  const WATCH_PROPS: set<string> := {
    "skipsCloseAnimation", "fullScreen", "skipTaskbar", "skipPager", "skipSwitcher", "keepAbove",
    "keepBelow", "minimized", "demandsAttention", "excludeFromCapture", "desktops", "activities"
  }

  /** The watched properties after a list of requests; the last one for a property wins. */
  ghost function Applied(watched: set<string>, info: seq<(string, bool)>): set<string> {
    if info == [] then watched
    else
      var before := Applied(watched, info[..|info| - 1]);
      var (p, enable) := info[|info| - 1];
      if enable then before + {p} else before - {p}
  }

  lemma {:induction false} LastRequestWins(watched: set<string>, info: seq<(string, bool)>, p: string, i: nat)
    requires i < |info| && info[i].0 == p
    requires forall j :: i < j < |info| ==> info[j].0 != p
    ensures p in Applied(watched, info) <==> info[i].1
  {
    if i + 1 < |info| {
      LastRequestWins(watched, info[..|info| - 1], p, i);
    }
  }

  // ---- what clients can rely on -----------------------------------------------------------

  /** No two tokens, of one client or of two, ever refer to one window. */
  lemma OneTokenPerWindow(r: TokenRegistry, s: string, t: string)
    requires r.Valid() && s in r.byToken && t in r.byToken
    requires r.byToken[s].state == Active && r.byToken[t].state == Active && r.byToken[s].window == r.byToken[t].window
    ensures s == t
  {
    assert r.EntryOk(r.byToken[s]) && r.EntryOk(r.byToken[t]);
  }

  /** Looking up the first 20 characters finds the registered token that begins
      the caption, if any does, and no other token does. */
  lemma PrefixLookupIsScan(r: TokenRegistry, w: Window, t: string)
    requires r.Valid() && w in r.captions
    ensures t in r.byToken && t <= r.captions[w] <==> t == Prefix(r.captions[w]) && t in r.byToken
  {
    if t in r.byToken {
      assert |t| == TOKEN_LENGTH;
    }
  }

  /** A connected listener speaks for an active token, to its owner, about the
      window the token is bound to - and no listener of another token is on it. */
  lemma ListenersReachTheOwner(r: TokenRegistry, s: Slot, q: Slot)
    requires r.Valid() && s in r.watches.slots && q in r.watches.slots
    ensures s.token in r.byToken
    ensures var e := r.byToken[s.token];
            e.state == Active && e.window == Some(s.window) && e.conn == s.conn
    ensures s.window in r.byWindow && s.window in r.captions
    ensures s.window == q.window ==> s.token == q.token && (s.prop == q.prop ==> s == q)
  {
    assert r.watches.Recorded(s) && r.watches.Recorded(q);
    assert WatchOk(r.byToken[s.token], r.watches.byToken[s.token])
      && WatchOk(r.byToken[q.token], r.watches.byToken[q.token]);
    assert r.EntryOk(r.byToken[s.token]) && r.EntryOk(r.byToken[q.token]);
  }

  /** All that may have been sent about `e` so far. A pending token has met no
      window, and nothing was sent; an active one has met its window only, and its
      validation was sent. If it is gone, it timed out having met none, or its
      validation was followed by one withdrawal for another reason - as ambiguous
      exactly if it has met a second window. */
  ghost predicate Told(r: TokenRegistry, e: TokenEntry)
    reads r, e
  {
    var told := About(r.log, e);
    if !r.Registered(e) then
      (told == [Invalidated(Timeout, None)] && e.matched == {})
      || (|told| == 2 && told[0].Validated? && told[1].Invalidated? && told[1].reason != Timeout
          && told[1].last == Some(told[0].window)
          && (told[1].reason == Ambiguous <==> e.matched != {told[0].window}))
    else if e.state == Pending then told == [] && e.deadline && e.matched == {}
    else e.window.Some? && told == [Validated(e.window.value)] && e.matched == {e.window.value}
  }

  /** That is what has been sent, for every token ever requested by a client that
      is still connected. */
  lemma TraceOfToken(r: TokenRegistry, e: TokenEntry)
    requires r.Valid() && e in r.all && e.conn.alive
    ensures Told(r, e)
  {
    assert r.EntryOk(e);
  }

  lemma CarriesItsToken(r: TokenRegistry, token: string, rest: string)
    requires r.Valid() && token in r.byToken && r.byToken[token].state == Pending
    ensures Prefix(token + rest) == token && r.Claimed(token + rest) == {r.byToken[token]}
    ensures r.byToken[token].window == None && r.byToken[token] in r.all
  {
    assert r.EntryOk(r.byToken[token]);
    assert (token + rest)[..TOKEN_LENGTH] == token;
  }

  lemma BoundHere(r: TokenRegistry, w: Window)
    requires r.Valid() && w in r.byWindow
    ensures var e := r.byWindow[w];
            e.token in r.byToken && r.byToken[e.token] == e && e in r.all && e.window == Some(w) && e.state == Active
  {
  }

  /** What the protocol is for. From any state, a client that asks for a token and
      puts it at the front of the title of a live window, before the deadline, owns
      that window: it is told so, once; the token resolves to the window; and
      whichever token held the window is gone. */
  method Claim(r: TokenRegistry, conn: Connection, timeout: int, draws: seq<string>, w: Window, rest: string)
    returns (token: string, resolved: Resolved)
    requires r.Valid() && conn.alive && w in r.captions && 1 <= timeout <= MAX_VALIDATE_TIMEOUT_MS
    requires forall d :: d in draws ==> |d| == TOKEN_LENGTH
    requires exists i :: 0 <= i < |draws| && draws[i] !in r.byToken
    modifies r, r.all, r.watches
    ensures r.Valid() && token !in old(r.byToken) && token in r.byToken && r.byToken[token].conn == conn
    ensures resolved == Bound(w) && About(r.log, r.byToken[token]) == [Validated(w)]
    ensures r.byToken.Keys == old(r.byToken).Keys - old(r.HeldBy(w)) + {token}
  {
    hide TokenRegistry.Valid, About;
    var reply := r.TokenRequest(conn, timeout, draws);
    token := reply.value;
    ghost var e := r.byToken[token];
    CarriesItsToken(r, token, rest);
    assert r.HeldBy(w) == old(r.HeldBy(w));
    r.HolderKnown(w);
    r.OnCaptionChanged(w, token + rest);
    assert r.byWindow[w] == e;
    BoundHere(r, w);
    resolved := r.ResolveTokenWindow(token, conn);
    TraceOfToken(r, e);
  }

  /** The script's life: whatever windows, timers and clients do, in any order, the
      registry stays in order and what was said is never taken back. `conns` are
      the connections there ever are, no two with the same id. */
  method Live(r: TokenRegistry, conns: seq<Connection>, rounds: nat)
    requires r.Valid() && conns != []
    requires forall i, j :: 0 <= i < j < |conns| ==> conns[i].id != conns[j].id
    requires forall e :: e in r.all ==> e.conn in conns
    modifies r, r.all, conns, r.watches
    ensures r.Valid() && old(r.log) <= r.log && old(r.all) <= r.all
    ensures forall e :: e in r.all && e.conn.alive ==> Told(r, e)
  {
    var left := rounds;
    while left > 0
      invariant r.Valid() && old(r.log) <= r.log && old(r.all) <= r.all && fresh(r.all - old(r.all))
      invariant forall e :: e in r.all ==> e.conn in conns
    {
      left := left - 1;
      var k: nat := *;
      LiveOnce(r, conns, conns[k % |conns|]);
    }
    forall e | e in r.all && e.conn.alive ensures Told(r, e) {
      TraceOfToken(r, e);
    }
  }

  method LiveOnce(r: TokenRegistry, ghost conns: seq<Connection>, conn: Connection)
    requires r.Valid() && conn in conns
    requires forall i, j :: 0 <= i < j < |conns| ==> conns[i].id != conns[j].id
    requires forall e :: e in r.all ==> e.conn in conns
    modifies r, r.all, conn, r.watches
    ensures r.Valid() && old(r.log) <= r.log && old(r.all) <= r.all && fresh(r.all - old(r.all))
    ensures forall e :: e in r.all ==> e.conn in conns
  {
    hide TokenRegistry.Valid, WATCH_PROPS;
    var event: nat := *;
    var w: Window := *;
    var text: string := *;
    if event == 0 {
      r.ClaimedKnown(text);
      r.HolderKnown(w);
      if w in r.captions {
        r.OnCaptionChanged(w, text);
      } else {
        r.OnWindowAdded(w, text);
      }
    } else if event == 1 {
      r.HolderKnown(w);
      r.OnWindowRemoved(w);
    } else if event == 2 {
      if text in r.byToken && r.byToken[text].deadline {
        r.TokenKnown(text);
        r.OnTokenDeadline(r.byToken[text]);
      }
    } else if event == 3 {
      if |text| == TOKEN_LENGTH && text !in r.byToken {
        var timeout: int := *;
        assert [text][0] !in r.byToken;
        var reply := r.TokenRequest(conn, timeout, [text]);
      }
    } else if event == 4 {
      r.OnClientDisconnected(conn);
    } else {
      var info: seq<(string, bool)> := *;
      var reply := r.Watch(text, conn, info);
    }
  }

  /** Losing the owner's ear makes nothing wrong. */
  lemma FallsSilent(f: Facts, g: Facts)
    requires Standing(f) && Timed(f) && (g == f || g == f.(alive := false))
    ensures Standing(g) && Timed(g)
  {
  }

  /** Without a listening owner the trace may stop anywhere. */
  lemma VanishesWell(f: Facts)
    requires Standing(f) && !f.alive
    ensures var g := f.(registered := false, bound := false, deadline := false); Standing(g) && Timed(g)
  {
  }

  lemma StopsWell(f: Facts)
    requires Standing(f) && Timed(f)
    ensures Standing(f.(deadline := false)) && (f.state == Active ==> Timed(f.(deadline := false)))
  {
  }

  lemma StartsWell(f: Facts)
    requires f == Facts(Pending, None, {}, true, true, false, [], f.alive)
    ensures Standing(f) && Timed(f)
  {
  }

  lemma {:induction false} NothingSaidAbout(log: seq<(TokenEntry, Notice)>, e: TokenEntry)
    requires forall i :: 0 <= i < |log| ==> log[i].0 != e
    ensures About(log, e) == []
  {
    if log != [] {
      NothingSaidAbout(log[..|log| - 1], e);
    }
  }

  lemma Rebind<K, V>(m: map<K, V>, k: K, v: V)
    ensures (m - {k})[k := v] == m[k := v]
  {
  }

  /** One more match: the first leaves a pending token unambiguous once it is bound,
      another window does not, the same window makes no difference. */
  lemma Matched(f: Facts, w: Window)
    requires Standing(f) && Timed(f) && f.registered && f.deadline && (f.bound ==> f.window.Some?)
    ensures var g := f.(matched := f.matched + {w});
            && Sound(g)
            && (f.window == None ==> g == JustMatched(w, f.alive))
            && (f.window == Some(w) ==> g == f)
            && (f.window.Some? && f.window != Some(w) ==> !Unambiguous(g))
  {
  }

  /** Announcing a token that was just bound begins its trace legally. */
  lemma BeginsWell(f: Facts, w: Window)
    requires f == Facts(Active, Some(w), {w}, true, true, true, if f.alive then [Validated(w)] else [], f.alive)
    ensures Standing(f) && Timed(f)
  {
  }

  /** Withdrawing a registered token completes its trace legally. */
  lemma EndsWell(f: Facts, reason: Reason, g: Facts)
    requires Sound(f) && f.registered
    requires (reason == Timeout <==> f.state == Pending) && (reason == Ambiguous <==> !Unambiguous(f))
    requires g.told == f.told + if f.alive then [Invalidated(reason, f.window)] else []
    requires !g.registered && !g.deadline && g.alive == f.alive && g.window == f.window && g.matched == f.matched
    ensures Standing(g) && Timed(g)
  {
    if !f.alive {
      assert g.told == f.told;
    }
  }

  ghost predicate WatchOk(e: TokenEntry, s: WatchState)
    reads e
  {
    && e.state == Active && e.window == Some(s.window)
    && forall p :: p in s.handlers ==> s.handlers[p].conn == e.conn
  }
}

/** The sliding-window login limiter: what its trimmed lists and lockouts answer is what the full
    history of failures says. */
module LoginLimiter {
  import opened Wrappers

  /** The keys of a cleaned user name and address; empty when not given. */
  function KeysFor(user: string, ip: string): (keys: seq<string>)
    ensures |keys| <= 2 && (|keys| == 2 ==> keys[0] != keys[1])
    ensures keys != [] <==> ip != ""
  {
    var both, one := "user_ip:" + user + ":" + ip, "ip:" + ip;
    assert both[0] != one[0];
    (if user != "" && ip != "" then [both] else []) + (if ip != "" then [one] else [])
  }

  /** Two callers share a key exactly when they share the address, or when user and address run together
      to the same text, which a colon in either can bring about. */
  lemma KeysShared(user: string, ip: string, user': string, ip': string)
    ensures (exists key :: key in KeysFor(user, ip) && key in KeysFor(user', ip')) <==>
      ip != "" && ip' != "" && (ip == ip' || (user != "" && user' != "" && user + ":" + ip == user' + ":" + ip'))
  {
    var both, one := "user_ip:" + user + ":" + ip, "ip:" + ip;
    var both', one' := "user_ip:" + user' + ":" + ip', "ip:" + ip';
    assert both[0] == 'u' && both'[0] == 'u' && one[0] == 'i' && one'[0] == 'i';
    assert one[3..] == ip && one'[3..] == ip';
    assert both[8..] == user + ":" + ip && both'[8..] == user' + ":" + ip';
    assert both == "user_ip:" + (user + ":" + ip) && both' == "user_ip:" + (user' + ":" + ip');
    assert both == both' <==> user + ":" + ip == user' + ":" + ip';
    assert one == one' <==> ip == ip';
    assert both != one' && one != both';
    KeysAre(user, ip, both, one);
    KeysAre(user', ip', both', one');
    hide KeysFor;
    if ip != "" && ip' != "" && ip == ip' {
      assert one in KeysFor(user, ip) && one in KeysFor(user', ip');
    }
    if user != "" && user' != "" && ip != "" && ip' != "" && both == both' {
      assert both in KeysFor(user, ip) && both in KeysFor(user', ip');
    }
  }

  lemma KeysAre(user: string, ip: string, both: string, one: string)
    requires both == "user_ip:" + user + ":" + ip && one == "ip:" + ip
    ensures forall key :: key in KeysFor(user, ip) <==>
      (key == both && user != "" && ip != "") || (key == one && ip != "")
  {
  }

  lemma NoneAfter(user: string, ip: string)
    requires ':' !in ip
    ensures forall i :: |user| < i < |user + ":" + ip| ==> (user + ":" + ip)[i] != ':'
  {
    forall i | |user| < i < |user + ":" + ip| ensures (user + ":" + ip)[i] != ':' {
      assert (user + ":" + ip)[i] == ip[i - |user| - 1];
    }
  }

  /** Without colons that is the same user at the same address. */
  lemma {:induction false} RunTogether(user: string, ip: string, user': string, ip': string)
    requires ':' !in ip && ':' !in ip' && user + ":" + ip == user' + ":" + ip'
    ensures user == user' && ip == ip'
  {
    var s, s' := user + ":" + ip, user' + ":" + ip';
    assert s[|user|] == ':' && s'[|user'|] == ':';
    NoneAfter(user, ip);
    NoneAfter(user', ip');
    assert s[..|user|] == user && s'[..|user'|] == user';
    assert s[|user| + 1..] == ip && s'[|user'| + 1..] == ip';
  }

  // ----- lists of failure times

  /** The times after `cutoff`. */
  function After(times: seq<real>, cutoff: real): seq<real> {
    if times == [] then []
    else After(times[..|times| - 1], cutoff) + (if times[|times| - 1] > cutoff then [times[|times| - 1]] else [])
  }

  /** How many of the times lie in (from, to]. */
  function CountIn(times: seq<real>, from: real, to: real): nat {
    if times == [] then 0
    else CountIn(times[..|times| - 1], from, to) + (if from < times[|times| - 1] <= to then 1 else 0)
  }

  ghost predicate Ascending(times: seq<real>, last: real) {
    && (forall i, j :: 0 <= i < j < |times| ==> times[i] <= times[j])
    && (forall i :: 0 <= i < |times| ==> times[i] <= last)
  }

  /** The failure at index `i` fills the window that ends with it. */
  ghost predicate Fills(times: seq<real>, i: nat, span: real, max: int)
    requires i < |times|
  {
    CountIn(times, times[i] - span, times[i]) >= max
  }

  /** What the full history of a key says: some failure filled its window less than `span` ago. */
  ghost predicate Limited(times: seq<real>, now: real, span: real, max: int) {
    exists i: nat :: i < |times| && now < times[i] + span && Fills(times, i, span, max)
  }

  lemma {:induction false} AfterAfter(times: seq<real>, c: real, d: real)
    requires c <= d
    ensures After(After(times, c), d) == After(times, d)
  {
    if times != [] {
      var n := |times| - 1;
      AfterAfter(times[..n], c, d);
      if times[n] > c {
        assert After(times, c)[..|After(times, c)| - 1] == After(times[..n], c);
      } else {
        assert After(times, c) == After(times[..n], c);
        assert After(times, d) == After(times[..n], d);
      }
    }
  }

  lemma {:induction false} AfterCounts(times: seq<real>, c: real, to: real)
    requires forall i :: 0 <= i < |times| ==> times[i] <= to
    ensures |After(times, c)| == CountIn(times, c, to)
  {
    if times != [] {
      AfterCounts(times[..|times| - 1], c, to);
    }
  }

  lemma {:induction false} AfterNone(times: seq<real>, c: real)
    requires forall i :: 0 <= i < |times| ==> times[i] <= c
    ensures After(times, c) == []
  {
    if times != [] {
      AfterNone(times[..|times| - 1], c);
    }
  }

  lemma {:induction false} AfterBounded(times: seq<real>, c: real, last: real)
    requires forall i :: 0 <= i < |times| ==> times[i] <= last
    ensures forall i :: 0 <= i < |After(times, c)| ==> After(times, c)[i] <= last
  {
    if times != [] {
      AfterBounded(times[..|times| - 1], c, last);
    }
  }

  lemma {:induction false} CountWider(times: seq<real>, from: real, to: real, from': real, to': real)
    requires forall i :: 0 <= i < |times| ==> from < times[i] <= to ==> from' < times[i] <= to'
    ensures CountIn(times, from, to) <= CountIn(times, from', to')
  {
    if times != [] {
      CountWider(times[..|times| - 1], from, to, from', to');
    }
  }

  lemma {:induction false} CountNothing(times: seq<real>, from: real, to: real)
    requires forall i :: 0 <= i < |times| ==> times[i] <= from
    ensures CountIn(times, from, to) == 0
  {
    if times != [] {
      CountNothing(times[..|times| - 1], from, to);
    }
  }

  /** Recording a failure adds one to the windows that contain it and changes no other. */
  lemma CountSnoc(times: seq<real>, t: real, from: real, to: real)
    ensures CountIn(times + [t], from, to) == CountIn(times, from, to) + (if from < t <= to then 1 else 0)
  {
    assert (times + [t])[..|times|] == times;
  }

  // ----- the data kept for one key

  /** The data of one key agrees with its full history. */
  ghost predicate Consistent(times: seq<real>, kept: seq<real>, lock: Option<real>, last: real, span: real, max: int) {
    && Ascending(times, last)
    && (forall i :: 0 <= i < |kept| ==> kept[i] <= last)
    && (span > 0.0 ==> KeptEnough(times, kept, last - span))
    && (span > 0.0 && lock.Some? ==> LockEarned(times, lock.value, span, max))
    && (span <= 0.0 && lock.Some? ==> lock.value <= last)
    && (span > 0.0 ==> LocksMissNothing(times, lock, span, max))
  }

  /** What was trimmed away is older than every window still to come. */
  ghost predicate KeptEnough(times: seq<real>, kept: seq<real>, limit: real) {
    exists c :: c <= limit && kept == After(times, c)
  }

  ghost predicate LockEarned(times: seq<real>, until: real, span: real, max: int) {
    exists i: nat :: i < |times| && until == times[i] + span && Fills(times, i, span, max)
  }

  ghost predicate LocksMissNothing(times: seq<real>, lock: Option<real>, span: real, max: int) {
    forall i: nat :: i < |times| && Fills(times, i, span, max) ==> lock.Some? && times[i] + span <= lock.value
  }

  predicate Locked(lock: Option<real>, now: real) {
    lock.Some? && now < lock.value
  }

  /** The first lockout test answers the question about the full history. */
  lemma LockDecides(times: seq<real>, kept: seq<real>, lock: Option<real>, last: real, span: real, max: int, now: real)
    requires Consistent(times, kept, lock, last, span, max) && now >= last
    ensures Locked(lock, now) <==> Limited(times, now, span, max)
  {
    if span > 0.0 && lock.Some? && now < lock.value {
      var i: nat :| i < |times| && lock.value == times[i] + span && Fills(times, i, span, max);
    }
  }

  /** Trimming keeps the data consistent, and when the key is not locked the trimmed list is too short
      to lock it: the second lockout test of the query never succeeds. */
  lemma TrimKeeps(times: seq<real>, kept: seq<real>, lock: Option<real>, last: real, span: real, max: int, now: real)
    requires Consistent(times, kept, lock, last, span, max) && now >= last && max >= 1
    ensures Consistent(times, After(kept, now - span), lock, now, span, max)
    ensures !Locked(lock, now) ==> |After(kept, now - span)| < max
  {
    AfterBounded(kept, now - span, now);
    if span > 0.0 {
      TrimIsTrim(times, kept, last - span, now - span);
      AfterCounts(times, now - span, now);
      if |After(times, now - span)| >= max {
        CountLate(times, now - span, now);
        var n: nat := |times| - 1;
        CountWider(times, now - span, now, times[n] - span, times[n]);
        assert Fills(times, n, span, max);
      }
    } else {
      AfterNone(kept, now - span);
    }
  }

  lemma TrimIsTrim(times: seq<real>, kept: seq<real>, limit: real, cutoff: real)
    requires KeptEnough(times, kept, limit) && limit <= cutoff
    ensures After(kept, cutoff) == After(times, cutoff)
  {
    var c :| c <= limit && kept == After(times, c);
    AfterAfter(times, c, cutoff);
  }

  /** A window that ends now and is not empty contains the latest failure. */
  lemma CountLate(times: seq<real>, from: real, to: real)
    requires Ascending(times, to) && CountIn(times, from, to) >= 1
    ensures times != [] && times[|times| - 1] > from
  {
    if times != [] && times[|times| - 1] <= from {
      CountNothing(times, from, to);
    }
  }

  /** Recording a failure keeps the data consistent with the longer history. */
  lemma RecordKeeps(times: seq<real>, kept: seq<real>, lock: Option<real>, last: real, span: real, max: int, now: real)
    requires Consistent(times, kept, lock, last, span, max) && now >= last && max >= 1
    ensures var trimmed := After(kept, now - span) + [now];
            Consistent(times + [now], trimmed, if |trimmed| >= max then Some(now + span) else lock, now, span, max)
  {
    hide Fills, LockEarned, LocksMissNothing, KeptEnough, After;
    var trimmed, longer := After(kept, now - span) + [now], times + [now];
    AfterBounded(kept, now - span, now);
    if span > 0.0 {
      TrimIsTrim(times, kept, last - span, now - span);
      RecordTrims(times, now, span, max);
      LockKeeps(times, lock, now, span, max);
    }
  }

  /** The trimmed list with the new failure is the trimmed longer history, and its length says whether
      the new failure fills its window. */
  lemma RecordTrims(times: seq<real>, now: real, span: real, max: int)
    requires Ascending(times, now) && span > 0.0
    ensures KeptEnough(times + [now], After(times, now - span) + [now], now - span)
    ensures Fills(times + [now], |times|, span, max) <==> |After(times, now - span) + [now]| >= max
  {
    var longer := times + [now];
    assert longer[..|times|] == times && longer[|times|] == now;
    assert After(longer, now - span) == After(times, now - span) + [now];
    AfterCounts(longer, now - span, now);
  }

  lemma LockKeeps(times: seq<real>, lock: Option<real>, now: real, span: real, max: int)
    requires Ascending(times, now) && span > 0.0
    requires (lock.Some? ==> LockEarned(times, lock.value, span, max)) && LocksMissNothing(times, lock, span, max)
    ensures var longer := times + [now];
            var lock' := if Fills(longer, |times|, span, max) then Some(now + span) else lock;
            (lock'.Some? ==> LockEarned(longer, lock'.value, span, max)) && LocksMissNothing(longer, lock', span, max)
  {
    hide Fills;
    var longer := times + [now];
    assert forall i: nat :: i < |times| ==> longer[i] == times[i];
    FillsSnoc(times, now, span, max);
    if Fills(longer, |times|, span, max) {
      assert longer[|times|] == now;
      assert LockEarned(longer, now + span, span, max);
    } else if lock.Some? {
      var i: nat :| i < |times| && lock.value == times[i] + span && Fills(times, i, span, max);
      assert Fills(longer, i, span, max) && lock.value == longer[i] + span;
    }
  }

  /** A new failure fills no window but its own. */
  lemma FillsSnoc(times: seq<real>, now: real, span: real, max: int)
    requires Ascending(times, now) && span > 0.0
    ensures forall i: nat :: i < |times| && Fills(times, i, span, max) ==> Fills(times + [now], i, span, max)
    ensures forall i: nat :: i < |times| && Fills(times + [now], i, span, max) ==>
                               Fills(times, i, span, max) || Fills(times + [now], |times|, span, max)
  {
    forall i: nat | i < |times|
      ensures Fills(times, i, span, max) ==> Fills(times + [now], i, span, max)
      ensures Fills(times + [now], i, span, max) ==>
                Fills(times, i, span, max) || Fills(times + [now], |times|, span, max)
    {
      assert (times + [now])[i] == times[i];
      CountSnoc(times, now, times[i] - span, times[i]);
    }
  }

  lemma FreshConsistent(last: real, span: real, max: int)
    ensures Consistent([], [], None, last, span, max)
  {
    assert span > 0.0 ==> last - span <= last - span && After([], last - span) == [];
  }

  lemma LaterConsistent(times: seq<real>, kept: seq<real>, lock: Option<real>, last: real, span: real, max: int,
                        now: real)
    requires Consistent(times, kept, lock, last, span, max) && now >= last
    ensures Consistent(times, kept, lock, now, span, max)
  {
    hide LockEarned, LocksMissNothing;
    if span > 0.0 {
      var c :| c <= last - span && kept == After(times, c);
    }
  }

  // ----- the limiter

  function Lookup<V>(m: map<string, V>, key: string): Option<V> {
    if key in m then Some(m[key]) else None
  }

  function TimesOf(m: map<string, seq<real>>, key: string): seq<real> {
    if key in m then m[key] else []
  }

  lemma TimesAfter(m: map<string, seq<real>>, key: string, value: seq<real>)
    ensures TimesOf(m[key := value], key) == value
    ensures forall k :: k != key ==> TimesOf(m[key := value], k) == TimesOf(m, k)
  {
  }

  ghost predicate KeyConsistent(history: map<string, seq<real>>, failures: map<string, seq<real>>,
                                lockouts: map<string, real>,
                                last: real, span: real, max: int, key: string)
  {
    Consistent(TimesOf(history, key), TimesOf(failures, key), Lookup(lockouts, key), last, span, max)
  }

  ghost predicate AllConsistent(history: map<string, seq<real>>, failures: map<string, seq<real>>,
                                lockouts: map<string, real>,
                                last: real, span: real, max: int)
  {
    forall key :: KeyConsistent(history, failures, lockouts, last, span, max, key)
  }

  ghost predicate SameElsewhere<V>(a: map<string, V>, b: map<string, V>, key: string) {
    forall k :: k != key ==> Lookup(a, k) == Lookup(b, k)
  }

  /** A step that touches one key and leaves its data consistent leaves all data consistent. */
  lemma OneKeyChanges(history: map<string, seq<real>>, failures: map<string, seq<real>>, lockouts: map<string, real>,
                      history': map<string, seq<real>>, failures': map<string, seq<real>>, lockouts': map<string, real>,
                      last: real, span: real, max: int, key: string)
    requires AllConsistent(history, failures, lockouts, last, span, max)
    requires SameElsewhere(history, history', key) && SameElsewhere(failures, failures', key)
    requires SameElsewhere(lockouts, lockouts', key)
    requires KeyConsistent(history', failures', lockouts', last, span, max, key)
    ensures AllConsistent(history', failures', lockouts', last, span, max)
  {
    hide Consistent;
    forall k ensures KeyConsistent(history', failures', lockouts', last, span, max, k) {
      assert KeyConsistent(history, failures, lockouts, last, span, max, k);
      if k != key {
        assert Lookup(history, k) == Lookup(history', k) && Lookup(failures, k) == Lookup(failures', k);
      }
    }
  }

  lemma ConsistentAt(history: map<string, seq<real>>, failures: map<string, seq<real>>, lockouts: map<string, real>,
                     last: real, span: real, max: int, key: string)
    requires AllConsistent(history, failures, lockouts, last, span, max)
    ensures Consistent(TimesOf(history, key), TimesOf(failures, key), Lookup(lockouts, key), last, span, max)
  {
    hide Consistent;
    assert KeyConsistent(history, failures, lockouts, last, span, max, key);
  }

  lemma AtConsistent(history: map<string, seq<real>>, failures: map<string, seq<real>>, lockouts: map<string, real>,
                     last: real, span: real, max: int, key: string)
    requires Consistent(TimesOf(history, key), TimesOf(failures, key), Lookup(lockouts, key), last, span, max)
    ensures KeyConsistent(history, failures, lockouts, last, span, max, key)
  {
  }

  /** The histories after a failure at `now` on all of `keys`. */
  ghost function Recorded(history: map<string, seq<real>>, keys: seq<string>, now: real): map<string, seq<real>> {
    if keys == [] then history
    else
      var before := Recorded(history, keys[..|keys| - 1], now);
      before[keys[|keys| - 1] := TimesOf(before, keys[|keys| - 1]) + [now]]
  }

  /** The histories after a success on all of `keys`. */
  ghost function Forgotten(history: map<string, seq<real>>, keys: seq<string>): map<string, seq<real>> {
    history - (set k | k in keys)
  }

  lemma {:induction false} RecordedAt(history: map<string, seq<real>>, keys: seq<string>, now: real, key: string)
    requires |keys| == 2 ==> keys[0] != keys[1]
    requires |keys| <= 2
    ensures TimesOf(Recorded(history, keys, now), key)
         == if key in keys then TimesOf(history, key) + [now] else TimesOf(history, key)
  {
    if keys != [] {
      RecordedAt(history, keys[..|keys| - 1], now, key);
    }
  }

  class LoginRateLimiter {
    const maxAttempts: int
    const lockoutSeconds: int
    var failures: map<string, seq<real>>
    var lockouts: map<string, real>
    /** Every failure of each key since its last success, and the time of the latest call. */
    ghost var history: map<string, seq<real>>
    ghost var last: real

    ghost predicate Valid()
      reads this
    {
      && last >= 0.0
      && (maxAttempts >= 1 ==> AllConsistent(history, failures, lockouts, last, lockoutSeconds as real, maxAttempts))
    }

    constructor (maxAttempts: int, lockoutSeconds: int)
      ensures Valid() && history == map[] && last == 0.0
      ensures this.maxAttempts == maxAttempts && this.lockoutSeconds == lockoutSeconds
    {
      this.maxAttempts, this.lockoutSeconds := maxAttempts, lockoutSeconds;
      failures, lockouts, history, last := map[], map[], map[], 0.0;
      new;
      FreshConsistent(0.0, lockoutSeconds as real, maxAttempts);
    }

    /** The clock moves on. */
    ghost method Advance(now: real)
      requires Valid() && now >= last
      modifies this`last
      ensures Valid() && last == now
    {
      ghost var was := last;
      last := now;
      if maxAttempts >= 1 {
        hide Consistent;
        forall key: string
          {:trigger KeyConsistent(history, failures, lockouts, now, lockoutSeconds as real, maxAttempts, key)}
          ensures KeyConsistent(history, failures, lockouts, now, lockoutSeconds as real, maxAttempts, key) {
          assert KeyConsistent(history, failures, lockouts, was, lockoutSeconds as real, maxAttempts, key);
          LaterConsistent(TimesOf(history, key), TimesOf(failures, key), Lookup(lockouts, key), was,
                          lockoutSeconds as real, maxAttempts, now);
        }
      }
    }

    /** One turn of the query's loop. */
    method CheckKey(key: string, now: real) returns (limited: bool)
      requires Valid() && now == last
      modifies this`failures, this`lockouts
      ensures Valid()
      ensures maxAttempts >= 1 ==> lockouts == old(lockouts)
      ensures maxAttempts >= 1 ==>
                (limited <==> Limited(TimesOf(history, key), now, lockoutSeconds as real, maxAttempts))
      ensures maxAttempts <= 0 ==> limited
    {
      hide Consistent, Limited, After, TimesOf, AllConsistent, KeyConsistent;
      var until := if key in lockouts then lockouts[key] else 0.0;
      var cutoff := now - lockoutSeconds as real;
      if maxAttempts >= 1 {
        ConsistentAt(history, failures, lockouts, last, lockoutSeconds as real, maxAttempts, key);
        LockDecides(TimesOf(history, key), TimesOf(failures, key), Lookup(lockouts, key), last,
                    lockoutSeconds as real, maxAttempts, now);
        TrimKeeps(TimesOf(history, key), TimesOf(failures, key), Lookup(lockouts, key), last,
                  lockoutSeconds as real, maxAttempts, now);
      }
      if now < until {
        return true;
      }
      ghost var was := failures;
      failures := failures[key := After(TimesOf(failures, key), cutoff)];
      TimesAfter(was, key, failures[key]);
      if maxAttempts >= 1 {
        AtConsistent(history, failures, lockouts, last, lockoutSeconds as real, maxAttempts, key);
        OneKeyChanges(history, was, lockouts, history, failures, lockouts, last, lockoutSeconds as real,
                      maxAttempts, key);
      }
      if |failures[key]| >= maxAttempts {
        lockouts := lockouts[key := now + lockoutSeconds as real];
        return true;
      }
      return false;
    }

    method IsRateLimited(user: string, ip: string, now: real) returns (limited: bool)
      requires Valid() && now >= last
      modifies this`failures, this`lockouts, this`last
      ensures Valid() && last == now
      ensures maxAttempts >= 1 ==>
                (limited <==> (exists k :: k in KeysFor(user, ip) &&
                                           Limited(TimesOf(history, k), now, lockoutSeconds as real, maxAttempts)))
      ensures maxAttempts >= 1 ==> lockouts == old(lockouts)
      ensures maxAttempts <= 0 ==> (limited <==> ip != "")
    {
      hide Consistent, Limited, TimesOf, AllConsistent;
      var keys := KeysFor(user, ip);
      Advance(now);
      var i := 0;
      while i < |keys|
        invariant 0 <= i <= |keys| && Valid() && last == now
        invariant maxAttempts >= 1 ==> lockouts == old(lockouts)
        invariant maxAttempts >= 1 ==>
                    forall j :: 0 <= j < i ==>
                        !Limited(TimesOf(history, keys[j]), now, lockoutSeconds as real, maxAttempts)
        invariant maxAttempts <= 0 ==> i == 0
      {
        var blocked := CheckKey(keys[i], now);
        if blocked {
          assert keys[i] in KeysFor(user, ip);
          return true;
        }
        i := i + 1;
      }
      return false;
    }

    /** One turn of the recording loop. */
    method RecordKey(key: string, now: real)
      requires Valid() && now == last
      modifies this`failures, this`lockouts, this`history
      ensures Valid()
      ensures history == old(history)[key := TimesOf(old(history), key) + [now]]
    {
      hide Consistent, After, TimesOf, AllConsistent, KeyConsistent;
      if maxAttempts >= 1 {
        ConsistentAt(history, failures, lockouts, last, lockoutSeconds as real, maxAttempts, key);
        RecordKeeps(TimesOf(history, key), TimesOf(failures, key), Lookup(lockouts, key), last,
                    lockoutSeconds as real, maxAttempts, now);
      }
      ghost var wasFailures, wasHistory, wasLockouts := failures, history, lockouts;
      var cutoff := now - lockoutSeconds as real;
      failures := failures[key := After(TimesOf(failures, key), cutoff)];
      failures := failures[key := failures[key] + [now]];
      if |failures[key]| >= maxAttempts {
        lockouts := lockouts[key := now + lockoutSeconds as real];
      }
      history := history[key := TimesOf(history, key) + [now]];
      assert failures == wasFailures[key := failures[key]];
      TimesAfter(wasFailures, key, failures[key]);
      TimesAfter(wasHistory, key, history[key]);
      if maxAttempts >= 1 {
        AtConsistent(history, failures, lockouts, last, lockoutSeconds as real, maxAttempts, key);
        OneKeyChanges(wasHistory, wasFailures, wasLockouts, history, failures, lockouts, last,
                      lockoutSeconds as real, maxAttempts, key);
      }
    }

    method RecordFailure(user: string, ip: string, now: real)
      requires Valid() && now >= last
      modifies this
      ensures Valid() && last == now
      ensures forall k :: TimesOf(history, k) == TimesOf(old(history), k) + if k in KeysFor(user, ip) then [now] else []
    {
      hide Consistent, TimesOf, AllConsistent, KeysFor;
      var keys := KeysFor(user, ip);
      Advance(now);
      var i := 0;
      while i < |keys|
        invariant 0 <= i <= |keys| && Valid() && last == now
        invariant history == Recorded(old(history), keys[..i], now)
      {
        RecordKey(keys[i], now);
        assert keys[..i + 1][..i] == keys[..i];
        i := i + 1;
      }
      assert keys[..i] == keys;
      forall k ensures TimesOf(history, k) == TimesOf(old(history), k) + if k in KeysFor(user, ip) then [now] else [] {
        RecordedAt(old(history), keys, now, k);
      }
    }

    method RecordSuccess(user: string, ip: string)
      requires Valid()
      modifies this`failures, this`lockouts, this`history
      ensures Valid()
      ensures forall k :: TimesOf(history, k) == if k in KeysFor(user, ip) then [] else TimesOf(old(history), k)
    {
      hide Consistent, AllConsistent, KeysFor;
      var keys := KeysFor(user, ip);
      var i := 0;
      while i < |keys|
        invariant 0 <= i <= |keys| && Valid()
        invariant history == Forgotten(old(history), keys[..i])
      {
        var key := keys[i];
        ghost var wasFailures, wasHistory, wasLockouts := failures, history, lockouts;
        failures := failures - {key};
        lockouts := lockouts - {key};
        history := history - {key};
        if maxAttempts >= 1 {
          FreshConsistent(last, lockoutSeconds as real, maxAttempts);
          OneKeyChanges(wasHistory, wasFailures, wasLockouts, history, failures, lockouts, last,
                        lockoutSeconds as real, maxAttempts, key);
        }
        assert keys[..i + 1] == keys[..i] + [keys[i]];
        i := i + 1;
      }
      assert keys[..i] == keys;
    }
  }
}

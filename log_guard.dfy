/**
 * LogGuard: the console wrapper that drops log calls during a flood and
 * redacts sensitive fields from what it does print.
 *
 * The wrapped `console.log` is modelled by `LogGuard.Log`, which returns
 * what would reach the real console instead of printing it.
 */
module LogGuard {
  import opened Text
  import opened SlidingWindow

  /** Length of the flood window: one minute in milliseconds. */
  const FloodWindowMs := 60000
  const RedactedText := "*** [REDACTED BY LOGGUARD] ***"
  const CircularText := "[Circular Reference]"

  datatype LogGuardConfig = LogGuardConfig(sensitiveKeys: seq<string>, maxLogsPerMinute: int, enabled: bool)

  /**
   * A logged JavaScript value. Arrays and objects carry the identity of the
   * heap object they stand for, so that two occurrences of one object (a
   * shared or a circular reference) have the same `id`. `Other` is any
   * non-object value that is not listed (a function, a symbol, a bigint).
   */
  datatype Value =
    | Undefined
    | Null
    | Bool(b: bool)
    | Num(n: int)
    | Str(s: string)
    | Other(kind: string)
    | Arr(id: nat, items: seq<Value>)
    | Obj(id: nat, fields: seq<Field>)

  /** One own enumerable property of an object, in key order. */
  datatype Field = Field(key: string, value: Value)

  /** `typeof v === 'object' && v !== null`. */
  predicate IsNode(v: Value)
  {
    v.Arr? || v.Obj?
  }

  /** Some configured sensitive key, lower-cased, is a substring of the lower-cased key. */
  predicate IsSensitive(key: string, sensitiveKeys: seq<string>)
  {
    exists i :: 0 <= i < |sensitiveKeys| && Occurs(Lower(key), Lower(sensitiveKeys[i]))
  }

  // ---------------------------------------------------------------------
  // sanitize: the visited set is threaded through the traversal

  /** `sanitize(input, visited)`: the sanitized value and the visited set afterwards. */
  function Sanitize(v: Value, sensitiveKeys: seq<string>, visited: set<nat>): (res: (Value, set<nat>))
    ensures visited <= res.1
    ensures IsNode(v) ==> v.id in res.1
  {
    match v
    case Arr(id, items) =>
      if id in visited then (Str(CircularText), visited)
      else
        var (items', visited') := SanitizeItems(items, sensitiveKeys, visited + {id});
        (Arr(id, items'), visited')
    case Obj(id, fields) =>
      if id in visited then (Str(CircularText), visited)
      else
        var (fields', visited') := SanitizeFields(fields, sensitiveKeys, visited + {id});
        (Obj(id, fields'), visited')
    case _ => (v, visited)
  }

  /** `items.map(item => sanitize(item, visited))`, left to right with one shared visited set. */
  function SanitizeItems(items: seq<Value>, sensitiveKeys: seq<string>, visited: set<nat>): (res: (seq<Value>, set<nat>))
    ensures visited <= res.1
    ensures |res.0| == |items|
  {
    if items == [] then ([], visited)
    else
      var (head, visited1) := Sanitize(items[0], sensitiveKeys, visited);
      var (tail, visited2) := SanitizeItems(items[1..], sensitiveKeys, visited1);
      ([head] + tail, visited2)
  }

  /** The `for (const key of Object.keys(copy))` loop: redact or sanitize each property in key order. */
  function SanitizeFields(fields: seq<Field>, sensitiveKeys: seq<string>, visited: set<nat>): (res: (seq<Field>, set<nat>))
    ensures visited <= res.1
    ensures |res.0| == |fields|
    ensures forall i :: 0 <= i < |fields| ==> res.0[i].key == fields[i].key
    ensures forall i :: 0 <= i < |fields| && IsSensitive(fields[i].key, sensitiveKeys) ==>
      res.0[i].value == Str(RedactedText)
  {
    if fields == [] then ([], visited)
    else
      var f := fields[0];
      if IsSensitive(f.key, sensitiveKeys) then
        var (tail, visited2) := SanitizeFields(fields[1..], sensitiveKeys, visited);
        ([Field(f.key, Str(RedactedText))] + tail, visited2)
      else
        var (value, visited1) := Sanitize(f.value, sensitiveKeys, visited);
        var (tail, visited2) := SanitizeFields(fields[1..], sensitiveKeys, visited1);
        ([Field(f.key, value)] + tail, visited2)
  }

  /** Primitives and `null` come back unchanged and leave the visited set alone. */
  lemma PrimitivesUnchanged(v: Value, sensitiveKeys: seq<string>, visited: set<nat>)
    requires !IsNode(v)
    ensures Sanitize(v, sensitiveKeys, visited) == (v, visited)
  {
  }

  /** An object or array already visited becomes the circular-reference marker. */
  lemma VisitedBecomesMarker(v: Value, sensitiveKeys: seq<string>, visited: set<nat>)
    requires IsNode(v) && v.id in visited
    ensures Sanitize(v, sensitiveKeys, visited) == (Str(CircularText), visited)
  {
  }

  /** Sanitizing `a + b` is sanitizing `a`, then `b` with the visited set `a` left. */
  lemma {:induction false} ItemsAppend(a: seq<Value>, b: seq<Value>, sensitiveKeys: seq<string>, visited: set<nat>)
    ensures var ra := SanitizeItems(a, sensitiveKeys, visited);
      var rb := SanitizeItems(b, sensitiveKeys, ra.1);
      SanitizeItems(a + b, sensitiveKeys, visited) == (ra.0 + rb.0, rb.1)
    decreases |a|
  {
    if a != [] {
      assert (a + b)[0] == a[0] && (a + b)[1..] == a[1..] + b;
      var r0 := Sanitize(a[0], sensitiveKeys, visited);
      ItemsAppend(a[1..], b, sensitiveKeys, r0.1);
      var ra' := SanitizeItems(a[1..], sensitiveKeys, r0.1);
      var rb := SanitizeItems(b, sensitiveKeys, ra'.1);
      assert [r0.0] + (ra'.0 + rb.0) == ([r0.0] + ra'.0) + rb.0;
    } else {
      assert a + b == b;
      assert [] + SanitizeItems(b, sensitiveKeys, visited).0 == SanitizeItems(b, sensitiveKeys, visited).0;
    }
  }

  /** Element `i` is sanitized with the visited set the elements before it left behind. */
  lemma ItemsAt(items: seq<Value>, sensitiveKeys: seq<string>, visited: set<nat>, i: nat)
    requires i < |items|
    ensures var before := SanitizeItems(items[..i], sensitiveKeys, visited).1;
      && SanitizeItems(items, sensitiveKeys, visited).0[i] == Sanitize(items[i], sensitiveKeys, before).0
      && SanitizeItems(items[..i + 1], sensitiveKeys, visited).1 == Sanitize(items[i], sensitiveKeys, before).1
  {
    var before := SanitizeItems(items[..i], sensitiveKeys, visited);
    assert items == items[..i] + items[i..];
    ItemsAppend(items[..i], items[i..], sensitiveKeys, visited);
    assert items[..i + 1] == items[..i] + [items[i]];
    ItemsAppend(items[..i], [items[i]], sensitiveKeys, visited);
    assert [items[i]][1..] == [];
  }

  /** Sanitizing fields `a + b` is sanitizing `a`, then `b` with the visited set `a` left. */
  lemma {:induction false} FieldsAppend(a: seq<Field>, b: seq<Field>, sensitiveKeys: seq<string>, visited: set<nat>)
    ensures var ra := SanitizeFields(a, sensitiveKeys, visited);
      var rb := SanitizeFields(b, sensitiveKeys, ra.1);
      SanitizeFields(a + b, sensitiveKeys, visited) == (ra.0 + rb.0, rb.1)
    decreases |a|
  {
    if a != [] {
      assert (a + b)[0] == a[0] && (a + b)[1..] == a[1..] + b;
      var f := a[0];
      var v1 := if IsSensitive(f.key, sensitiveKeys) then visited else Sanitize(f.value, sensitiveKeys, visited).1;
      var out := if IsSensitive(f.key, sensitiveKeys) then Field(f.key, Str(RedactedText))
                 else Field(f.key, Sanitize(f.value, sensitiveKeys, visited).0);
      FieldsAppend(a[1..], b, sensitiveKeys, v1);
      var ra' := SanitizeFields(a[1..], sensitiveKeys, v1);
      var rb := SanitizeFields(b, sensitiveKeys, ra'.1);
      assert [out] + (ra'.0 + rb.0) == ([out] + ra'.0) + rb.0;
    } else {
      assert a + b == b;
      assert [] + SanitizeFields(b, sensitiveKeys, visited).0 == SanitizeFields(b, sensitiveKeys, visited).0;
    }
  }

  /**
   * Property `i` keeps its key; its value is the redaction text when the key is
   * sensitive (and then nothing below it is visited), and otherwise its sanitized
   * value under the visited set the properties before it left behind.
   */
  lemma FieldsAt(fields: seq<Field>, sensitiveKeys: seq<string>, visited: set<nat>, i: nat)
    requires i < |fields|
    ensures var before := SanitizeFields(fields[..i], sensitiveKeys, visited).1;
      var out := SanitizeFields(fields, sensitiveKeys, visited).0[i];
      var after := SanitizeFields(fields[..i + 1], sensitiveKeys, visited).1;
      && out.key == fields[i].key
      && (IsSensitive(fields[i].key, sensitiveKeys) ==> out.value == Str(RedactedText) && after == before)
      && (!IsSensitive(fields[i].key, sensitiveKeys) ==>
            out.value == Sanitize(fields[i].value, sensitiveKeys, before).0 &&
            after == Sanitize(fields[i].value, sensitiveKeys, before).1)
  {
    assert fields == fields[..i] + fields[i..];
    FieldsAppend(fields[..i], fields[i..], sensitiveKeys, visited);
    assert fields[..i + 1] == fields[..i] + [fields[i]];
    FieldsAppend(fields[..i], [fields[i]], sensitiveKeys, visited);
    assert [fields[i]][1..] == [];
  }

  /** An array not yet visited is sanitized elementwise: same length, same order. */
  lemma ArraySanitizedElementwise(id: nat, items: seq<Value>, sensitiveKeys: seq<string>, visited: set<nat>)
    requires id !in visited
    ensures var r := Sanitize(Arr(id, items), sensitiveKeys, visited).0;
      && r.Arr? && |r.items| == |items|
      && forall i :: 0 <= i < |items| ==>
           r.items[i] == Sanitize(items[i], sensitiveKeys, SanitizeItems(items[..i], sensitiveKeys, visited + {id}).1).0
  {
    forall i | 0 <= i < |items|
      ensures SanitizeItems(items, sensitiveKeys, visited + {id}).0[i] ==
              Sanitize(items[i], sensitiveKeys, SanitizeItems(items[..i], sensitiveKeys, visited + {id}).1).0
    {
      ItemsAt(items, sensitiveKeys, visited + {id}, i);
    }
  }

  /**
   * An object not yet visited keeps its keys in order; a property is redacted
   * exactly when its key is sensitive, and every other value is sanitized.
   */
  lemma ObjectSanitizedByKey(id: nat, fields: seq<Field>, sensitiveKeys: seq<string>, visited: set<nat>)
    requires id !in visited
    ensures var r := Sanitize(Obj(id, fields), sensitiveKeys, visited).0;
      && r.Obj? && |r.fields| == |fields|
      && (forall i :: 0 <= i < |fields| ==> r.fields[i].key == fields[i].key)
      && (forall i :: 0 <= i < |fields| && IsSensitive(fields[i].key, sensitiveKeys) ==>
            r.fields[i].value == Str(RedactedText))
      && (forall i :: 0 <= i < |fields| && !IsSensitive(fields[i].key, sensitiveKeys) ==>
            r.fields[i].value ==
              Sanitize(fields[i].value, sensitiveKeys, SanitizeFields(fields[..i], sensitiveKeys, visited + {id}).1).0)
  {
    forall i | 0 <= i < |fields| && !IsSensitive(fields[i].key, sensitiveKeys)
      ensures SanitizeFields(fields, sensitiveKeys, visited + {id}).0[i].value ==
              Sanitize(fields[i].value, sensitiveKeys, SanitizeFields(fields[..i], sensitiveKeys, visited + {id}).1).0
    {
      FieldsAt(fields, sensitiveKeys, visited + {id}, i);
    }
  }

  /**
   * The visited set is shared by all arguments of one log call, so a second
   * reference to an object or array already printed earlier in the call is
   * replaced by the marker even when it is not circular.
   */
  lemma SharedReferenceReplaced(args: seq<Value>, sensitiveKeys: seq<string>, i: nat, j: nat)
    requires i < j < |args|
    requires IsNode(args[i]) && IsNode(args[j]) && args[i].id == args[j].id
    ensures SanitizeItems(args, sensitiveKeys, {}).0[j] == Str(CircularText)
  {
    var prefix := args[..j];
    assert prefix == args[..i + 1] + args[i + 1..j];
    ItemsAppend(args[..i + 1], args[i + 1..j], sensitiveKeys, {});
    ItemsAt(args, sensitiveKeys, {}, i);
    ItemsAt(args, sensitiveKeys, {}, j);
  }

  /** Every property, at any depth, whose key is sensitive holds the redaction text. */
  predicate Redacted(v: Value, sensitiveKeys: seq<string>)
  {
    match v
    case Arr(_, items) => forall i :: 0 <= i < |items| ==> Redacted(items[i], sensitiveKeys)
    case Obj(_, fields) =>
      forall i :: 0 <= i < |fields| ==>
        (IsSensitive(fields[i].key, sensitiveKeys) ==> fields[i].value == Str(RedactedText)) &&
        Redacted(fields[i].value, sensitiveKeys)
    case _ => true
  }

  /** Nothing sensitive survives: the output of `sanitize` has every sensitive property redacted, at every depth. */
  lemma {:induction false} SanitizeRedacts(v: Value, sensitiveKeys: seq<string>, visited: set<nat>)
    ensures Redacted(Sanitize(v, sensitiveKeys, visited).0, sensitiveKeys)
    decreases v, 1
  {
    match v
    case Arr(id, items) =>
      if id !in visited {
        ItemsRedact(items, sensitiveKeys, visited + {id});
      }
    case Obj(id, fields) =>
      if id !in visited {
        var inner := visited + {id};
        var out := SanitizeFields(fields, sensitiveKeys, inner).0;
        assert Sanitize(v, sensitiveKeys, visited).0 == Obj(id, out);
        FieldsRedact(fields, sensitiveKeys, inner);
        forall i | 0 <= i < |out|
          ensures (IsSensitive(out[i].key, sensitiveKeys) ==> out[i].value == Str(RedactedText))
          ensures Redacted(out[i].value, sensitiveKeys)
        {
          assert out[i].key == fields[i].key;
        }
      }
    case _ =>
  }

  lemma {:induction false} ItemsRedact(items: seq<Value>, sensitiveKeys: seq<string>, visited: set<nat>)
    ensures forall i :: 0 <= i < |items| ==> Redacted(SanitizeItems(items, sensitiveKeys, visited).0[i], sensitiveKeys)
    decreases items, 0
  {
    if items != [] {
      var r0 := Sanitize(items[0], sensitiveKeys, visited);
      SanitizeRedacts(items[0], sensitiveKeys, visited);
      ItemsRedact(items[1..], sensitiveKeys, r0.1);
    }
  }

  lemma {:induction false} FieldsRedact(fields: seq<Field>, sensitiveKeys: seq<string>, visited: set<nat>)
    ensures forall i :: 0 <= i < |fields| ==>
      Redacted(SanitizeFields(fields, sensitiveKeys, visited).0[i].value, sensitiveKeys)
    decreases fields, 0
  {
    if fields != [] {
      var f := fields[0];
      var out := SanitizeFields(fields, sensitiveKeys, visited).0;
      var rest := if IsSensitive(f.key, sensitiveKeys) then visited else Sanitize(f.value, sensitiveKeys, visited).1;
      var tail := SanitizeFields(fields[1..], sensitiveKeys, rest).0;
      if IsSensitive(f.key, sensitiveKeys) {
        FieldsRedact(fields[1..], sensitiveKeys, visited);
        assert tail == SanitizeFields(fields[1..], sensitiveKeys, visited).0;
      } else {
        SanitizeRedacts(f.value, sensitiveKeys, visited);
        FieldsRedact(fields[1..], sensitiveKeys, rest);
        assert tail == SanitizeFields(fields[1..], sensitiveKeys, rest).0;
      }
      forall i | 1 <= i < |out| ensures Redacted(out[i].value, sensitiveKeys) {
        assert out[i] == tail[i - 1];
      }
    }
  }

  // ---------------------------------------------------------------------
  // Flood detection and the pause latch

  /** What the window may hold: `maxLogsPerMinute` entries, none when it is not positive. */
  function Capacity(maxLogsPerMinute: int): (cap: nat)
  {
    if maxLogsPerMinute > 0 then maxLogsPerMinute else 0
  }

  /** `checkFlooding` as a value: whether the call is flooded, and the timestamps afterwards. */
  function FloodStep(maxLogsPerMinute: int, ts: seq<int>, now: int): (step: (bool, seq<int>))
  {
    var kept := DropStale(ts, now - FloodWindowMs);
    if |kept| >= maxLogsPerMinute then (true, kept) else (false, kept + [now])
  }

  /** The `isPaused` latch of the wrapper: the new flag and whether the pause notice is printed. */
  function Latch(wasPaused: bool, flooded: bool): (latch: (bool, bool))
  {
    if flooded then (true, !wasPaused) else (false, false)
  }

  /** A flooded call records nothing; an accepted one records `now`; the window never outgrows its capacity. */
  lemma FloodStepBounded(maxLogsPerMinute: int, ts: seq<int>, now: int)
    requires |ts| <= Capacity(maxLogsPerMinute)
    ensures var (flooded, ts') := FloodStep(maxLogsPerMinute, ts, now);
      var kept := DropStale(ts, now - FloodWindowMs);
      && (flooded <==> |kept| >= maxLogsPerMinute)
      && (flooded ==> ts' == kept)
      && (!flooded ==> ts' == kept + [now])
      && |ts'| <= Capacity(maxLogsPerMinute)
  {
    DropStaleCut(ts, now - FloodWindowMs);
  }

  /** After a flood check the log window holds only instants of the last minute, oldest first. */
  lemma FloodWindowFresh(maxLogsPerMinute: int, ts: seq<int>, now: int)
    requires Sorted(ts) && AllAtMost(ts, now)
    ensures var ts' := FloodStep(maxLogsPerMinute, ts, now).1;
      Sorted(ts') && forall i :: 0 <= i < |ts'| ==> now - FloodWindowMs < ts'[i] <= now
  {
    DropStaleSorted(ts, now - FloodWindowMs);
    DropStaleAtMost(ts, now - FloodWindowMs, now);
    AppendSorted(DropStale(ts, now - FloodWindowMs), now);
  }

  /** The notices printed by a sequence of calls with the given flood outcomes. */
  function Notices(wasPaused: bool, floods: seq<bool>): (ns: seq<bool>)
    ensures |ns| == |floods|
    decreases |floods|
  {
    if floods == [] then []
    else
      var (paused, notice) := Latch(wasPaused, floods[0]);
      [notice] + Notices(paused, floods[1..])
  }

  /** A notice is printed exactly at the first call of each run of flooded calls. */
  lemma {:induction false} NoticeAtRunStart(wasPaused: bool, floods: seq<bool>)
    ensures forall i :: 0 <= i < |floods| ==>
      (Notices(wasPaused, floods)[i] <==> floods[i] && !(if i == 0 then wasPaused else floods[i - 1]))
    decreases |floods|
  {
    if floods != [] {
      var paused := Latch(wasPaused, floods[0]).0;
      NoticeAtRunStart(paused, floods[1..]);
      var ns := Notices(wasPaused, floods);
      assert ns == [Latch(wasPaused, floods[0]).1] + Notices(paused, floods[1..]);
      forall i | 0 <= i < |floods|
        ensures ns[i] <==> floods[i] && !(if i == 0 then wasPaused else floods[i - 1])
      {
        if i > 0 {
          assert ns[i] == Notices(paused, floods[1..])[i - 1];
          assert floods[1..][i - 1] == floods[i];
          if i > 1 {
            assert floods[1..][i - 2] == floods[i - 1];
          }
        }
      }
    }
  }

  /** What one call of the wrapped `console.log` sends to the real console. */
  datatype Emission =
    | Silent                                // flooded, notice already printed
    | PauseNotice(maxLogsPerMinute: int)    // the "Console paused" notice
    | Forwarded(args: seq<Value>)           // the (sanitized) arguments

  class LogGuard {
    const config: LogGuardConfig
    var logTimestamps: seq<int>
    var isPaused: bool
    /** The latest instant seen by a log call. */
    ghost var clock: int

    ghost predicate Valid()
      reads this
    {
      Sorted(logTimestamps) && AllAtMost(logTimestamps, clock) &&
      |logTimestamps| <= Capacity(config.maxLogsPerMinute)
    }

    constructor (config: LogGuardConfig)
      ensures Valid() && this.config == config
      ensures logTimestamps == [] && !isPaused && clock == 0
    {
      this.config := config;
      logTimestamps := [];
      isPaused := false;
      clock := 0;
    }

    /** `checkFlooding()` at instant `now`. */
    method CheckFlooding(now: int) returns (flooded: bool)
      requires Valid() && clock <= now
      modifies this`logTimestamps, this`clock
      ensures Valid() && clock == now
      ensures (flooded, logTimestamps) == FloodStep(config.maxLogsPerMinute, old(logTimestamps), now)
    {
      var windowStart := now - FloodWindowMs;
      ghost var was := logTimestamps;
      while |logTimestamps| > 0 && logTimestamps[0] <= windowStart
        invariant DropStale(logTimestamps, windowStart) == DropStale(was, windowStart)
        decreases |logTimestamps|
      {
        logTimestamps := logTimestamps[1..];
      }
      assert logTimestamps == DropStale(was, windowStart);
      FloodStepBounded(config.maxLogsPerMinute, was, now);
      DropStaleSorted(was, windowStart);
      DropStaleAtMost(was, windowStart, now);
      clock := now;

      if |logTimestamps| >= config.maxLogsPerMinute {
        return true;
      }

      AppendSorted(logTimestamps, now);
      logTimestamps := logTimestamps + [now];
      return false;
    }

    /** The wrapped `console.log(...args)` at instant `now`; without `enabled` nothing is wrapped. */
    method Log(args: seq<Value>, now: int) returns (out: Emission)
      requires Valid() && clock <= now
      modifies this`logTimestamps, this`isPaused, this`clock
      ensures Valid() && clock == now
      ensures !config.enabled ==>
        out == Forwarded(args) && logTimestamps == old(logTimestamps) && isPaused == old(isPaused)
      ensures config.enabled ==>
        var (flooded, ts) := FloodStep(config.maxLogsPerMinute, old(logTimestamps), now);
        var (paused, notice) := Latch(old(isPaused), flooded);
        && logTimestamps == ts && isPaused == paused
        && out == (if !flooded then Forwarded(SanitizeItems(args, config.sensitiveKeys, {}).0)
                   else if notice then PauseNotice(config.maxLogsPerMinute)
                   else Silent)
    {
      if !config.enabled {
        clock := now;
        return Forwarded(args);
      }
      var flooded := CheckFlooding(now);
      if flooded {
        if !isPaused {
          isPaused := true;
          return PauseNotice(config.maxLogsPerMinute);
        }
        return Silent;
      }
      isPaused := false;
      var safeArgs := SanitizeItems(args, config.sensitiveKeys, {}).0;
      return Forwarded(safeArgs);
    }
  }
}

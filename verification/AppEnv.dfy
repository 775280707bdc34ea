/**
 * An app's `.env` over its life (backend/src/services/appEnv.ts): configuration saved from the dashboard,
 * hidden secrets filled in on the way, and generatable secrets ensured before a start.
 */
module AppEnv {
  import opened Common
  import opened Strings
  import opened EnvText
  import opened EnvMerge
  import opened EnvFile

  /** What the registry declares about a service, and the port keys its compose file pins. */
  datatype Service = Service(managed: set<string>, hidden: seq<string>, auto: seq<string>, locked: set<string>)

  /** Updates on their way into the file, in the order they were put. */
  datatype Pending = Pending(order: seq<string>, updates: Updates)

  const NOTHING := Pending([], map[])

  function Put(pd: Pending, key: string, value: string): Pending {
    Pending(if key in pd.updates then pd.order else pd.order + [key], pd.updates[key := value])
  }

  predicate Asked(e: Entry, managed: set<string>) {
    e.key !in managed && Trim(e.value) != ""
  }

  /** The submitted values that count: not managed, not blank, trimmed. */
  function Requested(values: seq<Entry>, managed: set<string>): Pending {
    if values == [] then NOTHING
    else
      var e := values[|values| - 1];
      var pd := Requested(values[..|values| - 1], managed);
      if Asked(e, managed) then Put(pd, e.key, Trim(e.value)) else pd
  }

  predicate IsSet(content: string, key: string) {
    Read(content, key).Some? && Read(content, key).value != ""
  }

  /** A fresh value for every hidden secret that is neither set nor submitted. */
  function WithHidden(pd: Pending, hidden: seq<string>, current: string, generated: string -> string): Pending {
    if hidden == [] then pd
    else
      var k := hidden[|hidden| - 1];
      var before := WithHidden(pd, hidden[..|hidden| - 1], current, generated);
      if IsSet(current, k) || k in before.updates then before else Put(before, k, generated(k))
  }

  /** The file a save starts from. */
  function Base(env: Option<string>, example: Option<string>): string {
    GetOr(env, GetOr(example, ""))
  }

  /** A submitted value that would move a fixed port. */
  predicate MovesLockedPort(e: Entry, s: Service, current: string) {
    e.key in s.locked && Trim(e.value) != "" && Trim(e.value) != Trim(GetOr(Read(current, e.key), ""))
  }

  function Updated(s: Service, env: Option<string>, values: seq<Entry>, generated: string -> string): Pending {
    WithHidden(Requested(values, s.managed), s.hidden, GetOr(env, ""), generated)
  }

  datatype Saved = Saved(content: string, changed: seq<string>)

  function SaveEnv(s: Service, env: Option<string>, example: Option<string>, values: seq<Entry>, portsFree: bool,
                   generated: string -> string): Result<Saved>
  {
    var pd := Updated(s, env, values, generated);
    var base := Base(env, example);
    if exists e <- values :: MovesLockedPort(e, s, GetOr(env, "")) then Err("fixed port")
    else if !portsFree then Err("port in use")
    else Ok(Saved(Save(base, pd.order, pd.updates), Changed(Lines(base), pd.order, pd.updates)))
  }

  /** Submitted values come one per key, under key names; a freshly generated secret is one trimmed line. */
  predicate WellFormed(s: Service, values: seq<Entry>, generated: string -> string) {
    && (forall i, j :: 0 <= i < j < |values| ==> values[i].key != values[j].key)
    && (forall e <- values :: KeyName(e.key))
    && (forall k <- s.hidden :: KeyName(k) && Trimmed(generated(k)) && OneLine(generated(k)))
  }

  // ----- The pending updates -----

  lemma {:induction false} TrimRightEnds(s: string)
    ensures TrimRight(s) != "" ==> !Blank(TrimRight(s)[|TrimRight(s)| - 1])
  {
    if s != "" && Blank(s[|s| - 1]) {
      TrimRightEnds(s[..|s| - 1]);
    }
  }

  lemma {:induction false} TrimLeftStarts(s: string)
    ensures TrimLeft(s) != "" ==> !Blank(TrimLeft(s)[0]) && TrimLeft(s)[|TrimLeft(s)| - 1] == s[|s| - 1]
  {
    if s != "" && Blank(s[0]) {
      TrimLeftStarts(s[1..]);
    }
  }

  lemma TrimTrims(s: string)
    requires Trim(s) != ""
    ensures Trimmed(Trim(s))
  {
    hide Blank;
    hide TrimLeft;
    hide TrimRight;
    TrimRightEnds(s);
    TrimLeftStarts(TrimRight(s));
    assert TrimRight(s) != "" by {
      if TrimRight(s) == "" {
        TrimEmpty();
      }
    }
  }

  lemma TrimEmpty()
    ensures TrimLeft("") == ""
  {
  }

  predicate Tidy(pd: Pending) {
    Proper(pd.order, pd.updates)
  }

  lemma PutIsTidy(pd: Pending, key: string, value: string)
    requires Tidy(pd) && KeyName(key) && Trimmed(value)
    ensures Tidy(Put(pd, key, value))
  {
    hide KeyName;
    hide Trimmed;
    if key !in pd.updates {
      assert key !in pd.order;
      assert (set k | k in pd.order + [key]) == (set k | k in pd.order) + {key};
    }
    assert Put(pd, key, value).updates.Keys == pd.updates.Keys + {key};
  }

  lemma {:induction false} RequestedIsTidy(values: seq<Entry>, managed: set<string>)
    requires forall e <- values :: KeyName(e.key)
    ensures Tidy(Requested(values, managed))
  {
    hide Tidy;
    hide KeyName;
    hide Trim;
    if values == [] {
      NothingIsTidy();
    } else {
      var init, e := values[..|values| - 1], values[|values| - 1];
      assert forall x <- init :: x in values;
      assert e in values;
      RequestedIsTidy(init, managed);
      if Asked(e, managed) {
        TrimTrims(e.value);
        PutIsTidy(Requested(init, managed), e.key, Trim(e.value));
      }
    }
  }

  lemma NothingIsTidy()
    ensures Tidy(NOTHING)
  {
  }

  lemma {:induction false} WithHiddenIsTidy(pd: Pending, hidden: seq<string>, current: string, generated: string -> string)
    requires Tidy(pd) && forall k <- hidden :: KeyName(k) && Trimmed(generated(k))
    ensures Tidy(WithHidden(pd, hidden, current, generated))
  {
    hide Tidy;
    hide KeyName;
    hide Trimmed;
    hide IsSet;
    if hidden != [] {
      var init, k := hidden[..|hidden| - 1], hidden[|hidden| - 1];
      assert forall x <- init :: x in hidden;
      assert k in hidden;
      WithHiddenIsTidy(pd, init, current, generated);
      PutIsTidy(WithHidden(pd, init, current, generated), k, generated(k));
    }
  }

  lemma UpdatedIsTidy(s: Service, env: Option<string>, values: seq<Entry>, generated: string -> string)
    requires WellFormed(s, values, generated)
    ensures Tidy(Updated(s, env, values, generated))
  {
    RequestedIsTidy(values, s.managed);
    WithHiddenIsTidy(Requested(values, s.managed), s.hidden, GetOr(env, ""), generated);
  }

  /** The value submitted for a key, where it counts. */
  predicate Asks(values: seq<Entry>, managed: set<string>, key: string, value: string) {
    exists e <- values :: e.key == key && Asked(e, managed) && Trim(e.value) == value
  }

  lemma {:induction false} RequestedIs(values: seq<Entry>, managed: set<string>, key: string)
    requires forall i, j :: 0 <= i < j < |values| ==> values[i].key != values[j].key
    ensures key in Requested(values, managed).updates ==> Asks(values, managed, key, Requested(values, managed).updates[key])
    ensures forall e <- values :: e.key == key && Asked(e, managed) ==>
              key in Requested(values, managed).updates && Requested(values, managed).updates[key] == Trim(e.value)
  {
    hide Trim;
    hide Asked;
    if values != [] {
      var init, last := values[..|values| - 1], values[|values| - 1];
      assert forall i :: 0 <= i < |init| ==> init[i] == values[i];
      RequestedIs(init, managed, key);
      RequestedStep(values, managed);
      hide Requested;
      assert last in values && forall e <- values :: e in init || e == last;
      assert forall e <- init :: e in values && e.key != last.key;
    }
  }

  lemma RequestedStep(values: seq<Entry>, managed: set<string>)
    requires values != []
    ensures var last := values[|values| - 1];
            var before := Requested(values[..|values| - 1], managed).updates;
            Requested(values, managed).updates == if Asked(last, managed) then before[last.key := Trim(last.value)] else before
  {
  }

  /** Hidden secrets join the updates exactly when they are neither set nor submitted. */
  lemma {:induction false} WithHiddenIs(pd: Pending, hidden: seq<string>, current: string, generated: string -> string, key: string)
    ensures var after := WithHidden(pd, hidden, current, generated).updates;
            && (key in pd.updates ==> key in after && after[key] == pd.updates[key])
            && (key !in pd.updates ==> (key in after <==> key in hidden && !IsSet(current, key)))
            && (key !in pd.updates && key in after ==> after[key] == generated(key))
  {
    hide IsSet;
    if hidden != [] {
      WithHiddenIs(pd, hidden[..|hidden| - 1], current, generated, key);
      assert hidden == hidden[..|hidden| - 1] + [hidden[|hidden| - 1]];
    }
  }

  // ----- What a save does -----

  predicate IsAsked(values: seq<Entry>, managed: set<string>, key: string) {
    exists e <- values :: e.key == key && Asked(e, managed)
  }

  lemma UpdatedIs(s: Service, env: Option<string>, values: seq<Entry>, generated: string -> string, key: string)
    requires WellFormed(s, values, generated)
    ensures var p := Updated(s, env, values, generated).updates;
            && (IsAsked(values, s.managed, key) ==> key in p && Asks(values, s.managed, key, p[key]))
            && (!IsAsked(values, s.managed, key) ==>
                  (key in p <==> key in s.hidden && !IsSet(GetOr(env, ""), key)) && (key in p ==> p[key] == generated(key)))
  {
    hide Trim;
    hide IsSet;
    RequestedIs(values, s.managed, key);
    WithHiddenIs(Requested(values, s.managed), s.hidden, GetOr(env, ""), generated, key);
  }

  /** What lines inside the updates' values make of a key behind its last line. */
  function Overridden(s: Service, env: Option<string>, example: Option<string>, values: seq<Entry>,
                      generated: string -> string, key: string): Option<string>
  {
    var pd := Updated(s, env, values, generated);
    Overriding(Base(env, example), pd.order, pd.updates, key)
  }

  /** A hidden secret that this save fills in. */
  predicate Fills(s: Service, env: Option<string>, values: seq<Entry>, key: string) {
    !IsAsked(values, s.managed, key) && key in s.hidden && !IsSet(GetOr(env, ""), key)
  }

  /**
   * What a save that goes through makes of every key. A submitted value reads back as its trimmed self exactly
   * when no line inside a value overrides it, and it is one line and its key stood on at most one line, or the
   * key's last line said the same before. A hidden secret that was not set gets its generated value under the
   * same condition. Every other key reads as before, unless a line inside a value overrides it.
   */
  lemma SaveMeaning(s: Service, env: Option<string>, example: Option<string>, values: seq<Entry>, portsFree: bool,
                    generated: string -> string, key: string)
    requires WellFormed(s, values, generated) && SaveEnv(s, env, example, values, portsFree, generated).Ok?
    ensures var base := Base(env, example);
            var after := Read(SaveEnv(s, env, example, values, portsFree, generated).value.content, key);
            var single := Occurs(Lines(base), key) <= 1;
            var overridden := Overridden(s, env, example, values, generated, key);
            && (forall e <- values :: e.key == key && Asked(e, s.managed) ==>
                  (after == Some(Trim(e.value)) <==>
                   if overridden.Some? then overridden == Some(Trim(e.value))
                   else if single then OneLine(Trim(e.value))
                   else Read(base, key) == Some(Trim(e.value))))
            && (Fills(s, env, values, key) ==>
                  (after == Some(generated(key)) <==>
                   if overridden.Some? then overridden == Some(generated(key))
                   else single || Read(base, key) == Some(generated(key))))
            && (overridden.None? && !single ==> after == Read(base, key))
            && (!IsAsked(values, s.managed, key) && !Fills(s, env, values, key) ==>
                  after == if overridden.Some? then overridden else Read(base, key))
  {
    hide Trim;
    hide IsSet;
    hide Lines;
    hide Occurs;
    hide Read;
    hide Save;
    hide Updated;
    hide Base;
    hide Overriding;
    hide FirstLine;
    var base := Base(env, example);
    var pd := Updated(s, env, values, generated);
    UpdatedIsTidy(s, env, values, generated);
    UpdatedIs(s, env, values, generated, key);
    SavedReads(base, pd.order, pd.updates, key);
    if key in pd.updates {
      WrittenKeyReadsBackIff(base, pd.order, pd.updates, key);
    }
    forall e | e in values && e.key == key && Asked(e, s.managed)
      ensures key in pd.updates && pd.updates[key] == Trim(e.value)
    {
      OneValuePerKey(values, s.managed, e, pd.updates[key]);
    }
  }

  lemma OneValuePerKey(values: seq<Entry>, managed: set<string>, e: Entry, value: string)
    requires forall i, j :: 0 <= i < j < |values| ==> values[i].key != values[j].key
    requires e in values && Asks(values, managed, e.key, value)
    ensures value == Trim(e.value)
  {
    hide Trim;
  }

  /**
   * A hidden secret that is set survives a save that does not submit it exactly when no line inside a submitted
   * value gives it another value behind its last line.
   */
  lemma SetSecretIsKeptIff(s: Service, content: string, example: Option<string>, values: seq<Entry>,
                           portsFree: bool, generated: string -> string, key: string)
    requires WellFormed(s, values, generated) && SaveEnv(s, Some(content), example, values, portsFree, generated).Ok?
    requires IsSet(content, key) && !IsAsked(values, s.managed, key)
    ensures var overridden := Overridden(s, Some(content), example, values, generated, key);
            Read(SaveEnv(s, Some(content), example, values, portsFree, generated).value.content, key) == Read(content, key)
            <==> overridden.None? || overridden == Read(content, key)
  {
    hide Lines;
    hide Occurs;
    hide Read;
    hide SaveEnv;
    hide Overridden;
    SaveMeaning(s, Some(content), example, values, portsFree, generated, key);
  }

  /** A managed key is never taken from what was submitted for it; only a line inside another value can change it. */
  lemma ManagedKeyIsKeptIff(s: Service, env: Option<string>, example: Option<string>, values: seq<Entry>,
                            portsFree: bool, generated: string -> string, key: string)
    requires WellFormed(s, values, generated) && SaveEnv(s, env, example, values, portsFree, generated).Ok?
    requires key in s.managed && key !in s.hidden
    ensures var overridden := Overridden(s, env, example, values, generated, key);
            Read(SaveEnv(s, env, example, values, portsFree, generated).value.content, key) == Read(Base(env, example), key)
            <==> overridden.None? || overridden == Read(Base(env, example), key)
  {
    hide Lines;
    hide Occurs;
    hide Read;
    hide SaveEnv;
    hide Overridden;
    SaveMeaning(s, env, example, values, portsFree, generated, key);
  }

  /** Every submitted value that counts is a single line. */
  predicate AskedOneLine(values: seq<Entry>, managed: set<string>) {
    forall e <- values :: Asked(e, managed) ==> OneLine(Trim(e.value))
  }

  lemma OneLinersIff(s: Service, env: Option<string>, values: seq<Entry>, generated: string -> string)
    requires WellFormed(s, values, generated)
    ensures OneLiners(Updated(s, env, values, generated).updates) <==> AskedOneLine(values, s.managed)
  {
    hide Trim;
    hide IsSet;
    hide Updated;
    hide OneLine;
    var p := Updated(s, env, values, generated).updates;
    forall k ensures k in p ==> (IsAsked(values, s.managed, k) && Asks(values, s.managed, k, p[k])) || OneLine(p[k]) {
      UpdatedIs(s, env, values, generated, k);
    }
    forall e | e in values && Asked(e, s.managed) ensures e.key in p && p[e.key] == Trim(e.value) {
      UpdatedIs(s, env, values, generated, e.key);
      OneValuePerKey(values, s.managed, e, p[e.key]);
    }
  }

  /** When all submitted values are single lines, no key is overridden. */
  lemma NothingOverridden(s: Service, env: Option<string>, example: Option<string>, values: seq<Entry>,
                          generated: string -> string, key: string)
    requires WellFormed(s, values, generated) && AskedOneLine(values, s.managed)
    ensures Overridden(s, env, example, values, generated, key) == None
  {
    hide Updated;
    hide Lines;
    UpdatedIsTidy(s, env, values, generated);
    OneLinersIff(s, env, values, generated);
    var pd := Updated(s, env, values, generated);
    OneLinersAddNothing(Lines(Base(env, example)), pd.order, pd.updates, key);
  }

  /** A save that names only one setting overwrites a hidden secret: the setting's value goes on to a second line. */
  lemma LineBreakOverwritesSecret(f: string, t: string, a: string, r: string, e: string, generated: string -> string)
    requires KeyName(f) && KeyName(t) && f != t
    requires Trimmed(a) && Trimmed(r) && Trimmed(e) && OneLine(a) && OneLine(r) && OneLine(e)
    ensures var s := Service({}, [t], [], {});
            var env := Assignment(t, r);
            var saved := SaveEnv(s, Some(env), None, [Entry(f, a + "\n" + t + "=" + e)], true, generated);
            saved.Ok? && Read(env, t) == Some(r) && Read(saved.value.content, t) == Some(e)
  {
    hide KeyName;
    hide Trim;
    hide Read;
    hide Save;
    hide Lines;
    var s := Service({}, [t], [], {});
    var env := Assignment(t, r);
    var value := a + "\n" + t + "=" + e;
    TrimmedIsTrim(value);
    ValueSetsAnotherKey(f, t, a, r, e);
    var values := [Entry(f, value)];
    assert values[..0] == [];
    assert Requested(values, {}) == Pending([f], map[f := value]) by {
      assert Requested([], {}) == NOTHING;
      assert [] + [f] == [f];
    }
    assert IsSet(env, t);
    var pd := Pending([f], map[f := value]);
    assert [t][..0] == [] && WithHidden(pd, [], env, generated) == pd;
    assert WithHidden(pd, [t], env, generated) == pd;
  }

  /** A hidden secret that stays unset after a save: its first line is filled in, but its last one is blank. */
  predicate StaysUnset(s: Service, env: Option<string>, example: Option<string>, values: seq<Entry>, key: string) {
    Fills(s, env, values, key) && Occurs(Lines(Base(env, example)), key) >= 2 && !IsSet(Base(env, example), key)
  }

  /**
   * Saving the same values a second time leaves the file as it is exactly when the values that count are single
   * lines, no line that the first save left alone ended in a carriage return before its line break, and the
   * generator offers the same again for every hidden secret that stays unset.
   */
  lemma SecondSaveIsIdleIff(s: Service, env: Option<string>, example: Option<string>, values: seq<Entry>, portsFree: bool,
                            generated: string -> string, later: string -> string)
    requires WellFormed(s, values, generated) && WellFormed(s, values, later)
    requires SaveEnv(s, env, example, values, portsFree, generated).Ok?
    ensures var first := SaveEnv(s, env, example, values, portsFree, generated).value.content;
            var pd, again := Updated(s, env, values, generated), Updated(s, Some(first), values, later);
            Save(first, again.order, again.updates) == first <==>
            && AskedOneLine(values, s.managed)
            && !KeepsCr(Lines(Base(env, example)), pd.updates)
            && forall k <- s.hidden :: StaysUnset(s, env, example, values, k) ==> later(k) == generated(k)
  {
    hide IsSet;
    hide Lines;
    hide Occurs;
    hide Updated;
    hide KeepsCr;
    hide StaysUnset;
    hide AskedOneLine;
    var first := SaveEnv(s, env, example, values, portsFree, generated).value.content;
    var pd, again := Updated(s, env, values, generated), Updated(s, Some(first), values, later);
    UpdatedIsTidy(s, env, values, generated);
    UpdatedIsTidy(s, Some(first), values, later);
    OneLinersIff(s, env, values, generated);
    OneLinersIff(s, Some(first), values, later);
    if AskedOneLine(values, s.managed) {
      forall k
        ensures k in again.updates ==> k in pd.updates
        ensures k in again.updates && !StaysUnset(s, env, example, values, k) ==> again.updates[k] == pd.updates[k]
        ensures StaysUnset(s, env, example, values, k) ==>
                  k in s.hidden && k in pd.updates && k in again.updates && again.updates[k] == later(k) && pd.updates[k] == generated(k)
      {
        SecondUpdate(s, env, example, values, portsFree, generated, later, k);
      }
      SecondSaveChangesNothingIff(Base(env, example), pd.order, pd.updates, again.order, again.updates);
    } else {
      var k :| k in again.updates && !OneLine(again.updates[k]);
      LineBreakAlwaysChanges(first, again.order, again.updates, k);
    }
  }

  /** What the second save asks for: the submitted values again, and the secrets that stayed unset. */
  lemma SecondUpdate(s: Service, env: Option<string>, example: Option<string>, values: seq<Entry>, portsFree: bool,
                     generated: string -> string, later: string -> string, key: string)
    requires WellFormed(s, values, generated) && WellFormed(s, values, later) && AskedOneLine(values, s.managed)
    requires SaveEnv(s, env, example, values, portsFree, generated).Ok?
    ensures var first := SaveEnv(s, env, example, values, portsFree, generated).value.content;
            var p, q := Updated(s, env, values, generated).updates, Updated(s, Some(first), values, later).updates;
            && (key in q ==> key in p)
            && (key in q && !StaysUnset(s, env, example, values, key) ==> q[key] == p[key])
            && (StaysUnset(s, env, example, values, key) ==> key in s.hidden && key in q && q[key] == later(key) && p[key] == generated(key))
  {
    hide SaveEnv;
    hide Updated;
    hide Lines;
    hide Occurs;
    hide Asked;
    hide Read;
    hide AskedOneLine;
    hide Overridden;
    var first := SaveEnv(s, env, example, values, portsFree, generated).value.content;
    UpdatedIs(s, env, values, generated, key);
    UpdatedIs(s, Some(first), values, later, key);
    if IsAsked(values, s.managed, key) {
      SameRequests(s, env, Some(first), values, generated, later, key);
    } else {
      SaveMeaning(s, env, example, values, portsFree, generated, key);
      NothingOverridden(s, env, example, values, generated, key);
      assert key in s.hidden ==> Trimmed(generated(key));
      NothingIsSet(key);
    }
  }

  lemma NothingIsSet(key: string)
    ensures !IsSet("", key)
  {
    ReadIsLookup("", key);
  }

  lemma SameRequests(s: Service, env: Option<string>, now: Option<string>, values: seq<Entry>,
                     generated: string -> string, later: string -> string, key: string)
    requires WellFormed(s, values, generated) && WellFormed(s, values, later) && IsAsked(values, s.managed, key)
    ensures key in Updated(s, env, values, generated).updates && key in Updated(s, now, values, later).updates
    ensures Updated(s, env, values, generated).updates[key] == Updated(s, now, values, later).updates[key]
  {
    hide IsSet;
    RequestedIs(values, s.managed, key);
    WithHiddenIs(Requested(values, s.managed), s.hidden, GetOr(env, ""), generated, key);
    WithHiddenIs(Requested(values, s.managed), s.hidden, GetOr(now, ""), later, key);
  }

  /**
   * A save is refused exactly when a port it asks for is taken, or it would move a fixed one: it submits a value for a
   * locked key that is not blank and not the one the app's `.env` has.
   */
  lemma SaveIsRefusedIff(s: Service, env: Option<string>, example: Option<string>, values: seq<Entry>, portsFree: bool,
                         generated: string -> string)
    ensures SaveEnv(s, env, example, values, portsFree, generated).Err? <==>
              !portsFree || exists e <- values :: e.key in s.locked && Trim(e.value) != "" && !HasValue(env, e.key, Trim(e.value))
    ensures SaveEnv(s, env, example, values, portsFree, generated).Ok? ==>
              SaveEnv(s, env, example, values, portsFree, generated).value.content ==
              Save(if env.Some? then env.value else if example.Some? then example.value else "",
                   Updated(s, env, values, generated).order, Updated(s, env, values, generated).updates)
  {
    hide Save;
    hide Updated;
    forall e | e in values
      ensures MovesLockedPort(e, s, GetOr(env, "")) <==>
                e.key in s.locked && Trim(e.value) != "" && !HasValue(env, e.key, Trim(e.value))
    {
      MovesIff(e, s, env);
    }
    hide MovesLockedPort;
    hide HasValue;
  }

  /** The app has a `.env` that gives the key this value, apart from blanks around it. */
  predicate HasValue(env: Option<string>, key: string, value: string) {
    env.Some? && Read(env.value, key).Some? && Trim(Read(env.value, key).value) == value
  }

  lemma MovesIff(e: Entry, s: Service, env: Option<string>)
    ensures MovesLockedPort(e, s, GetOr(env, "")) <==>
              e.key in s.locked && Trim(e.value) != "" && !HasValue(env, e.key, Trim(e.value))
  {
    NothingRead(e.key);
    assert Trim("") == "";
    hide Read;
  }

  lemma NothingRead(key: string)
    ensures Read("", key).None?
  {
    ReadIsLookup("", key);
  }

  // ----- Ensuring secrets before a start -----

  const PLACEHOLDERS := {"", "change-me", "changeme", "change_me", "changethis", "secret", "password"}

  /** Unset, or left at a well-known placeholder. */
  predicate NeedsValue(content: string, key: string) {
    Lower(Trim(GetOr(Read(content, key), ""))) in PLACEHOLDERS
  }

  function Generatable(s: Service): seq<string> {
    s.auto + s.hidden
  }

  /** The generated values, one per key that needs one. */
  function ToGenerate(keys: seq<string>, content: string, generated: string -> string): seq<Entry> {
    if keys == [] then []
    else
      var k := keys[|keys| - 1];
      var before := ToGenerate(keys[..|keys| - 1], content, generated);
      if NeedsValue(content, k) && Entry(k, generated(k)) !in before then before + [Entry(k, generated(k))] else before
  }

  /** None when nothing needs a value and no file is written. */
  function EnsureSecrets(s: Service, env: Option<string>, example: Option<string>, portsFree: bool,
                         generated: string -> string): Option<Result<Saved>>
  {
    var values := ToGenerate(Generatable(s), Base(env, example), generated);
    if values == [] then None else Some(SaveEnv(s, env, example, values, portsFree, generated))
  }

  lemma {:induction false} ToGenerateIs(keys: seq<string>, content: string, generated: string -> string)
    ensures var values := ToGenerate(keys, content, generated);
            && (forall e :: e in values <==> e.key in keys && NeedsValue(content, e.key) && e.value == generated(e.key))
            && (forall i, j :: 0 <= i < j < |values| ==> values[i].key != values[j].key)
  {
    hide NeedsValue;
    if keys != [] {
      var init, k := keys[..|keys| - 1], keys[|keys| - 1];
      ToGenerateIs(init, content, generated);
      assert keys == init + [k];
      var before := ToGenerate(init, content, generated);
      assert forall i :: 0 <= i < |before| ==> before[i] in before;
    }
  }

  /** The key is unset, blank, or holds one of the values that examples ship with. */
  predicate Unfilled(content: string, key: string) {
    match Read(content, key)
    case None => true
    case Some(value) =>
      var v := Lower(Trim(value));
      v == "" || v == "change-me" || v == "changeme" || v == "change_me" || v == "changethis" || v == "secret" || v == "password"
  }

  lemma UnfilledIff(content: string, key: string)
    ensures NeedsValue(content, key) <==> Unfilled(content, key)
  {
    assert Lower(Trim("")) == "";
  }

  /**
   * Before a start values are generated for exactly those generatable secrets, hidden or not, that are unfilled, and
   * nothing is written when there are none.
   */
  lemma SecretsAreGeneratedIff(s: Service, env: Option<string>, example: Option<string>, portsFree: bool, generated: string -> string)
    ensures var base := if env.Some? then env.value else if example.Some? then example.value else "";
            var values := ToGenerate(Generatable(s), base, generated);
            && (EnsureSecrets(s, env, example, portsFree, generated).None? <==>
                forall k :: k in s.auto || k in s.hidden ==> !Unfilled(base, k))
            && (EnsureSecrets(s, env, example, portsFree, generated).Some? ==>
                EnsureSecrets(s, env, example, portsFree, generated).value ==
                SaveEnv(s, env, example, values, portsFree, generated))
            && forall e :: e in values <==> (e.key in s.auto || e.key in s.hidden) && Unfilled(base, e.key) && e.value == generated(e.key)
  {
    var base := Base(env, example);
    var values := ToGenerate(Generatable(s), base, generated);
    ToGenerateIs(Generatable(s), base, generated);
    forall k ensures NeedsValue(base, k) <==> Unfilled(base, k) {
      UnfilledIff(base, k);
    }
    hide NeedsValue;
    hide Unfilled;
    hide SaveEnv;
    hide ToGenerate;
    forall k | (k in s.auto || k in s.hidden) && Unfilled(base, k) ensures values != [] {
      assert Entry(k, generated(k)) in values;
    }
    if values != [] {
      assert values[0] in values;
    }
  }

  /** Registry keys are key names, and generated values are trimmed lines. */
  predicate GoodGenerator(s: Service, generated: string -> string) {
    forall k <- Generatable(s) :: KeyName(k) && Trimmed(generated(k)) && OneLine(generated(k))
  }

  lemma GeneratedIsWellFormed(s: Service, content: string, generated: string -> string)
    requires GoodGenerator(s, generated)
    ensures WellFormed(s, ToGenerate(Generatable(s), content, generated), generated)
    ensures AskedOneLine(ToGenerate(Generatable(s), content, generated), s.managed)
  {
    hide Trim;
    hide KeyName;
    hide NeedsValue;
    var values := ToGenerate(Generatable(s), content, generated);
    ToGenerateIs(Generatable(s), content, generated);
    forall e | e in values ensures KeyName(e.key) && OneLine(Trim(e.value)) {
      assert e.key in Generatable(s);
      TrimmedIsTrim(generated(e.key));
    }
    assert forall k <- s.hidden :: k in Generatable(s);
  }

  lemma TrimmedIsTrim(v: string)
    requires Trimmed(v)
    ensures Trim(v) == v
  {
  }

  /**
   * A secret that holds a real value keeps it when others are generated before a start exactly when the app has
   * a `.env`, or the secret is not a hidden one, or its first line is not its last, or the generator happens to
   * offer the value it had. So a hidden secret taken from the example file is replaced.
   */
  lemma RealSecretIsKeptIff(s: Service, env: Option<string>, example: Option<string>, portsFree: bool,
                            generated: string -> string, key: string, saved: Saved)
    requires GoodGenerator(s, generated) && key in Generatable(s)
    requires EnsureSecrets(s, env, example, portsFree, generated) == Some(Ok(saved))
    requires !NeedsValue(Base(env, example), key)
    ensures Read(saved.content, key) == Read(Base(env, example), key) <==>
            env.Some? || key !in s.hidden || Occurs(Lines(Base(env, example)), key) >= 2
            || Read(Base(env, example), key) == Some(generated(key))
  {
    hide Trim;
    hide Lines;
    hide Occurs;
    hide SaveEnv;
    hide Read;
    hide Overridden;
    var base := Base(env, example);
    var values := ToGenerate(Generatable(s), base, generated);
    ToGenerateIs(Generatable(s), base, generated);
    GeneratedIsWellFormed(s, base, generated);
    SaveMeaning(s, env, example, values, portsFree, generated, key);
    NothingOverridden(s, env, example, values, generated, key);
    assert !IsAsked(values, s.managed, key);
    NothingIsSet(key);
    RealIsSet(base, key);
  }

  /** No `.env`, an example file that holds the real value of hidden secret `a`, and a secret `b` to generate. */
  lemma ExampleSecretIsReplaced(a: string, b: string, held: string, generated: string -> string)
    requires KeyName(a) && KeyName(b) && a != b
    requires Trimmed(held) && OneLine(held) && Lower(held) !in PLACEHOLDERS && generated(a) != held
    requires Trimmed(generated(a)) && OneLine(generated(a)) && Trimmed(generated(b)) && OneLine(generated(b))
    ensures var s := Service({}, [a], [b], {});
            var example := Assignment(a, held);
            var ensured := EnsureSecrets(s, None, Some(example), true, generated);
            && Read(example, a) == Some(held)
            && ensured.Some? && ensured.value.Ok? && Read(ensured.value.value.content, a) == Some(generated(a))
  {
    hide KeyName;
    hide SaveEnv;
    hide EntryOf;
    hide Occurs;
    var s := Service({}, [a], [b], {});
    var example := Assignment(a, held);
    AssignmentReadsBack(a, held);
    OneLineFile(a, held);
    ReadIsLookup(example, a);
    ReadIsLookup(example, b);
    LookupSingle(example, a);
    LookupSingle(example, b);
    TrimmedIsTrim(held);
    hide Trim;
    hide Lines;
    hide Read;
    TrimOfNothing();
    assert NeedsValue(example, b) && !NeedsValue(example, a);
    var values := ToGenerate(Generatable(s), example, generated);
    ToGenerateIs(Generatable(s), example, generated);
    assert b in Generatable(s) && Entry(b, generated(b)) in values;
    NothingIsLocked(s, None, Some(example), values, generated);
    var saved := EnsureSecrets(s, None, Some(example), true, generated).value.value;
    OccursOnce(example, a);
    RealSecretIsKeptIff(s, None, Some(example), true, generated, a, saved);
    SaveFillsHidden(s, Some(example), values, generated, a);
  }

  lemma TrimOfNothing()
    ensures Trim("") == "" && Lower("") == ""
  {
  }

  lemma OccursOnce(line: string, key: string)
    ensures Occurs([line], key) <= 1
  {
    assert [line][1..] == [];
  }

  lemma NothingIsLocked(s: Service, env: Option<string>, example: Option<string>, values: seq<Entry>, generated: string -> string)
    requires s.locked == {}
    ensures SaveEnv(s, env, example, values, true, generated).Ok?
  {
  }

  lemma SaveFillsHidden(s: Service, example: Option<string>, values: seq<Entry>, generated: string -> string, key: string)
    requires WellFormed(s, values, generated) && AskedOneLine(values, s.managed)
    requires SaveEnv(s, None, example, values, true, generated).Ok?
    requires key in s.hidden && !IsAsked(values, s.managed, key) && Occurs(Lines(Base(None, example)), key) <= 1
    ensures Read(SaveEnv(s, None, example, values, true, generated).value.content, key) == Some(generated(key))
  {
    hide SaveEnv;
    hide Lines;
    hide Occurs;
    hide Read;
    hide Overridden;
    SaveMeaning(s, None, example, values, true, generated, key);
    NothingOverridden(s, None, example, values, generated, key);
    NothingIsSet(key);
  }

  lemma RealIsSet(content: string, key: string)
    requires !NeedsValue(content, key)
    ensures IsSet(content, key)
  {
    assert Trim("") == "" && Lower("") == "";
  }

  /**
   * Afterwards an unmanaged generatable secret is set exactly when it stood on at most one line, or its last line
   * held something before; and one that needed a value reads as the generated one under the same condition.
   */
  lemma EnsuredSecretIsSetIff(s: Service, env: Option<string>, example: Option<string>, portsFree: bool,
                              generated: string -> string, key: string, saved: Saved)
    requires GoodGenerator(s, generated) && key in Generatable(s) && key !in s.managed
    requires EnsureSecrets(s, env, example, portsFree, generated) == Some(Ok(saved))
    ensures IsSet(saved.content, key) <==> Occurs(Lines(Base(env, example)), key) <= 1 || IsSet(Base(env, example), key)
    ensures NeedsValue(Base(env, example), key) ==>
              (Read(saved.content, key) == Some(generated(key)) <==>
               Occurs(Lines(Base(env, example)), key) <= 1 || Read(Base(env, example), key) == Some(generated(key)))
  {
    hide Lines;
    hide Occurs;
    hide SaveEnv;
    hide Read;
    hide KeyName;
    hide Trim;
    hide Overridden;
    var base := Base(env, example);
    var values := ToGenerate(Generatable(s), base, generated);
    ToGenerateIs(Generatable(s), base, generated);
    GeneratedIsWellFormed(s, base, generated);
    SaveMeaning(s, env, example, values, portsFree, generated, key);
    NothingOverridden(s, env, example, values, generated, key);
    assert Trimmed(generated(key));
    TrimmedIsTrim(generated(key));
    if NeedsValue(base, key) {
      assert Entry(key, generated(key)) in values;
    } else {
      RealIsSet(base, key);
    }
  }

  // ----- The app's directory -----

  /** `parseEnvFile`: the last line that sets a key wins. */
  method ParseEnv(content: string) returns (values: map<string, string>)
    ensures forall k :: Read(content, k) == if k in values then Some(values[k]) else None
  {
    hide EntryOf;
    hide Lookup;
    hide Unescape;
    var lines := Split(content);
    values := map[];
    NoLines();
    for i := 0 to |lines|
      invariant forall k :: Lookup(lines[..i], k) == if k in values then Some(values[k]) else None
    {
      forall k
        ensures Lookup(lines[..i + 1], k) ==
                if HasKey(lines[i], k) then Some(Unescape(EntryOf(lines[i]).value.value)) else Lookup(lines[..i], k)
      {
        LookupSnoc(lines, i, k);
      }
      var e := EntryOf(lines[i]);
      if e.Some? {
        values := values[e.value.key := Unescape(e.value.value)];
      }
    }
    assert lines[..|lines|] == lines;
  }

  lemma NoLines()
    ensures forall k :: Lookup([], k) == None
  {
  }

  /** The line loop of a save: pending updates are taken by the first line of their key, the rest is appended. */
  method MergeLines(lines: seq<string>, order: seq<string>, updates: Updates)
    returns (out: seq<string>, changed: seq<string>)
    ensures out == Merge(lines, order, updates)
    ensures changed == Changed(lines, order, updates)
  {
    hide EntryOf;
    var pending := updates;
    out, changed := [], [];
    for i := 0 to |lines|
      invariant out + Merge(lines[i..], order, pending) == Merge(lines, order, updates)
      invariant changed + Changed(lines[i..], order, pending) == Changed(lines, order, updates)
    {
      MergeFirst(lines[i..], order, pending);
      assert lines[i..][0] == lines[i] && lines[i..][1..] == lines[i + 1..];
      ghost var rest := Merge(lines[i + 1..], order, Left(lines[i], pending));
      ghost var more := Changed(lines[i + 1..], order, Left(lines[i], pending));
      Assoc(out, [Rewritten(lines[i], pending)], rest);
      if Hits(lines[i], pending) {
        var k := KeyIn(lines[i], pending);
        Assoc(changed, [k], more);
        changed := changed + [k];
        out := out + [Assignment(k, pending[k])];
        pending := pending - {k};
      } else {
        out := out + [lines[i]];
      }
    }
    assert lines[|lines|..] == [];
    for j := 0 to |order|
      invariant out + Appended(order[j..], pending) == Merge(lines, order, updates)
      invariant changed + Unwritten(order[j..], pending) == Changed(lines, order, updates)
    {
      assert order[j..][0] == order[j] && order[j..][1..] == order[j + 1..];
      if order[j] in pending {
        Assoc(out, [Assignment(order[j], pending[order[j]])], Appended(order[j + 1..], pending));
        Assoc(changed, [order[j]], Unwritten(order[j + 1..], pending));
        changed := changed + [order[j]];
        out := out + [Assignment(order[j], pending[order[j]])];
      } else {
        assert Appended(order[j..], pending) == Appended(order[j + 1..], pending);
        assert Unwritten(order[j..], pending) == Unwritten(order[j + 1..], pending);
      }
    }
    assert order[|order|..] == [];
  }

  lemma MergeFirst(lines: seq<string>, order: seq<string>, p: Updates)
    requires lines != []
    ensures Merge(lines, order, p) == [Rewritten(lines[0], p)] + Merge(lines[1..], order, Left(lines[0], p))
    ensures Changed(lines, order, p) ==
            if Hits(lines[0], p) then [KeyIn(lines[0], p)] + Changed(lines[1..], order, Left(lines[0], p))
            else Changed(lines[1..], order, Left(lines[0], p))
  {
    hide EntryOf;
    assert [] + Changed(lines[1..], order, Left(lines[0], p)) == Changed(lines[1..], order, Left(lines[0], p));
  }

  class AppDir {
    var env: Option<string>
    const example: Option<string>

    constructor (env: Option<string>, example: Option<string>)
      ensures this.env == env && this.example == example
    {
      this.env, this.example := env, example;
    }

    method SaveServiceEnv(s: Service, values: seq<Entry>, portsFree: bool, generated: string -> string)
      returns (changed: Result<seq<string>>)
      modifies this
      ensures var saved := SaveEnv(s, old(env), example, values, portsFree, generated);
              && (saved.Ok? ==> env == Some(saved.value.content) && changed == Ok(saved.value.changed))
              && (saved.Err? ==> env == old(env) && changed == Err(saved.message))
    {
      hide Trim;
      hide Read;
      hide Lines;
      var current := GetOr(env, "");
      for i := 0 to |values|
        invariant forall j :: 0 <= j < i ==> !MovesLockedPort(values[j], s, current)
      {
        if MovesLockedPort(values[i], s, current) {
          return Err("fixed port");
        }
      }
      if !portsFree {
        return Err("port in use");
      }
      var pd := NOTHING;
      for i := 0 to |values|
        invariant pd == Requested(values[..i], s.managed)
      {
        assert values[..i + 1][..i] == values[..i];
        if values[i].key !in s.managed && Trim(values[i].value) != "" {
          pd := Put(pd, values[i].key, Trim(values[i].value));
        }
      }
      assert values[..|values|] == values;
      ghost var requested := pd;
      for i := 0 to |s.hidden|
        invariant pd == WithHidden(requested, s.hidden[..i], current, generated)
      {
        assert s.hidden[..i + 1][..i] == s.hidden[..i];
        if !IsSet(current, s.hidden[i]) && s.hidden[i] !in pd.updates {
          pd := Put(pd, s.hidden[i], generated(s.hidden[i]));
        }
      }
      assert s.hidden[..|s.hidden|] == s.hidden;
      var out, keys := MergeLines(Lines(Base(env, example)), pd.order, pd.updates);
      env := Some(FileText(out));
      return Ok(keys);
    }

    /** The keys written; an empty list when nothing needed a value. */
    method EnsureGeneratedSecrets(s: Service, portsFree: bool, generated: string -> string)
      returns (changed: Result<seq<string>>)
      modifies this
      ensures var saved := EnsureSecrets(s, old(env), example, portsFree, generated);
              && (saved.None? ==> env == old(env) && changed == Ok([]))
              && (saved.Some? && saved.value.Ok? ==>
                    env == Some(saved.value.value.content) && changed == Ok(saved.value.value.changed))
              && (saved.Some? && saved.value.Err? ==> env == old(env) && changed.Err?)
    {
      var values := ToGenerate(Generatable(s), Base(env, example), generated);
      if values == [] {
        return Ok([]);
      }
      changed := SaveServiceEnv(s, values, portsFree, generated);
    }
  }
}

/** The keyboard shortcuts of the number-entry screen: key names are normalised,
    most keys run their mapped action at once, and `q`/`w` wait to see whether a
    second press follows within 200 ms, in which case they stand for `r`/`d`.
    Time is the millisecond clock passed in with each event; a pending single
    press is a timer that either fires, is taken by the key's release, or is
    cancelled by the second press. */
module KeyShortcuts {
  import opened JsString

  /** `DOUBLE_PRESS_DELAY`. */
  const DoublePressDelay: int := 200

  /** What a shortcut does: one of the named page actions, or inserting the memo
      suggestion with the given index (`F5`–`F10`). */
  datatype Action = Perform(name: string) | InsertSuggestion(index: nat)

  /** `KEY_MAPPINGS`. */
  const KeyMappings: map<string, Action> := map[
    "PageDown" := Perform("saveButton"), " " := Perform("saveButton"),
    "F1" := Perform("showConfirmationDialog"),
    "PageUp" := Perform("simpleTaxTypeCheckbox"), "c" := Perform("simpleTaxTypeCheckbox"),
    "Home" := Perform("simpleTaxTypeConfirmOk"), "x" := Perform("simpleTaxTypeConfirmOk"),
    "Insert" := Perform("noDiscountCheckbox"), "z" := Perform("noDiscountCheckbox"),
    "F11" := Perform("notClearCheckbox"), "s" := Perform("notClearCheckbox"),
    "F12" := Perform("cannotReadCheckbox"), "End" := Perform("cannotReadCheckbox"),
    "v" := Perform("cannotReadCheckbox"),
    "F4" := Perform("clearMemoOpe"),
    "Escape" := Perform("navigateToIndex"),
    "d" := Perform("focusSecondInput"),
    "q" := Perform("focusThirdInput"),
    "w" := Perform("focusFourthInput"),
    "e" := Perform("focusFifthInput"),
    "r" := Perform("focusSixthInput"),
    "F5" := InsertSuggestion(0), "F6" := InsertSuggestion(1), "F7" := InsertSuggestion(2),
    "F8" := InsertSuggestion(3), "F9" := InsertSuggestion(4), "F10" := InsertSuggestion(5),
    "Pause" := Perform("toggleImageDisplay"),
    "a" := Perform("handleTaxInputToggle")
  ]

  /** `DOUBLE_PRESS_MAPPINGS`: a quick double `q` stands for `r`, a double `w` for `d`. */
  const DoublePressMappings: map<string, string> := map["q" := "r", "w" := "d"]

  /** The keys `normalizeKey` leaves as they are: the listed special keys and F1–F12. */
  const KeptKeys: set<string> := {
    "PageDown", "PageUp", "Home", "Insert", "End", "Escape", "Pause",
    "F1", "F2", "F3", "F4", "F5", "F6", "F7", "F8", "F9", "F10", "F11", "F12"
  }

  predicate IsUpper(c: char) { 'A' <= c <= 'Z' }

  /** Every kept key has an upper-case letter, so no lower-cased name is one of them. */
  lemma {:induction false} KeptKeysHaveUpper(k: string)
    requires k in KeptKeys
    ensures exists i :: 0 <= i < |k| && IsUpper(k[i])
  {
    assert IsUpper(k[0]);
  }

  /** `normalizeKey(key)`; a missing key is the empty string. */
  function NormalizeKey(key: string): (r: string)
    ensures key == "" ==> r == ""
    ensures |r| == |key|
    ensures key in KeptKeys ==> r == key
    ensures key !in KeptKeys ==> forall i :: 0 <= i < |r| ==> !IsUpper(r[i]) && (r[i] == key[i] || r[i] == LowerChar(key[i]))
  {
    if key == "" then ""
    else if key in KeptKeys then key
    else ToLower(key)
  }

  /** Normalising a normalised key changes nothing. */
  lemma {:induction false} NormalizeKeyIdempotent(key: string)
    ensures NormalizeKey(NormalizeKey(key)) == NormalizeKey(key)
  {
    var n := NormalizeKey(key);
    if key !in KeptKeys && n in KeptKeys {
      KeptKeysHaveUpper(n);
    }
  }

  /** Upper-case letter keys outside the kept ones act like their lower-case
      letter: Shift+Q is a `q`. */
  lemma {:induction false} ShiftedLetterNormalizes(c: char)
    requires IsUpper(c)
    ensures NormalizeKey([c]) == [LowerChar(c)]
  {
    if [c] in KeptKeys {
      KeptKeysHaveUpper([c]);
      assert false;
    }
  }

  /** The last press time of every key, and the keys whose single-press timer is pending. */
  datatype KeyState = KeyState(lastPress: map<string, int>, pending: set<string>)

  const Initial := KeyState(map[], {})

  /** `lastPressTimes[key] || 0`. */
  function LastPress(s: KeyState, key: string): int {
    if key in s.lastPress then s.lastPress[key] else 0
  }

  /** The answer of `isDoublePress` and the press times it leaves behind. */
  datatype Press = Press(double: bool, lastPress: map<string, int>)

  /** `isDoublePress(key)` at time `now`. */
  function IsDoublePress(s: KeyState, key: string, now: int): (p: Press)
    ensures p.double <==> now - LastPress(s, key) < DoublePressDelay
    ensures key in p.lastPress && p.lastPress[key] == now
    ensures forall k :: k != key ==> (k in p.lastPress <==> k in s.lastPress)
    ensures forall k :: k != key && k in s.lastPress ==> p.lastPress[k] == s.lastPress[k]
  {
    Press(now - LastPress(s, key) < DoublePressDelay, s.lastPress[key := now])
  }

  /** What a key event leads to: run an action, or dispatch a synthetic key press. */
  datatype Effect = Run(action: Action) | Simulate(key: string)

  /** The state after an event, what it ran, and whether the browser's default was suppressed. */
  datatype Outcome = Outcome(state: KeyState, effects: seq<Effect>, prevented: bool)

  /** The single-press action of a key: its mapping, or the key replayed. */
  function SinglePress(key: string): Effect {
    if key in KeyMappings then Run(KeyMappings[key]) else Simulate(key)
  }

  /** `handleKeyDown` for key name `rawKey`, with `modified` when Ctrl or Alt is held. */
  function KeyDown(s: KeyState, rawKey: string, modified: bool, now: int): (o: Outcome)
    ensures modified ==> o == Outcome(s, [], false)
    ensures !modified && NormalizeKey(rawKey) in DoublePressMappings ==>
      o.prevented && o.state.pending == (if now - LastPress(s, NormalizeKey(rawKey)) < DoublePressDelay
        then s.pending - {NormalizeKey(rawKey)} else s.pending + {NormalizeKey(rawKey)})
    ensures !modified && NormalizeKey(rawKey) !in DoublePressMappings ==> o.state == s
    ensures !modified && NormalizeKey(rawKey) !in DoublePressMappings ==>
      (o.prevented <==> NormalizeKey(rawKey) in KeyMappings)
    ensures !modified && NormalizeKey(rawKey) !in DoublePressMappings ==>
      o.effects == (if NormalizeKey(rawKey) in KeyMappings then [Run(KeyMappings[NormalizeKey(rawKey)])] else [])
    ensures !modified && NormalizeKey(rawKey) in DoublePressMappings ==>
      o.effects == (if now - LastPress(s, NormalizeKey(rawKey)) < DoublePressDelay
        then [Simulate(DoublePressMappings[NormalizeKey(rawKey)])] else [])
    ensures !modified ==>
      o.state.lastPress == (if NormalizeKey(rawKey) in DoublePressMappings then s.lastPress[NormalizeKey(rawKey) := now] else s.lastPress)
  {
    var key := NormalizeKey(rawKey);
    if modified then Outcome(s, [], false)
    else if key in DoublePressMappings then
      var p := IsDoublePress(s, key, now);
      if p.double then Outcome(KeyState(p.lastPress, s.pending - {key}), [Simulate(DoublePressMappings[key])], true)
      else Outcome(KeyState(p.lastPress, s.pending + {key}), [], true)
    else if key in KeyMappings then Outcome(s, [Run(KeyMappings[key])], true)
    else Outcome(s, [], false)
  }

  /** `handleKeyUp`: releasing a key whose single press is pending runs it at once. */
  function KeyUp(s: KeyState, rawKey: string): (o: Outcome)
    ensures NormalizeKey(rawKey) !in s.pending ==> o == Outcome(s, [], false)
    ensures NormalizeKey(rawKey) in s.pending ==>
      o.state == KeyState(s.lastPress, s.pending - {NormalizeKey(rawKey)}) && o.effects == [SinglePress(NormalizeKey(rawKey))]
  {
    var key := NormalizeKey(rawKey);
    if key in s.pending then Outcome(KeyState(s.lastPress, s.pending - {key}), [SinglePress(key)], false)
    else Outcome(s, [], false)
  }

  /** The single-press timer of `key` fires. */
  function TimerFires(s: KeyState, key: string): (o: Outcome)
    ensures key !in s.pending ==> o == Outcome(s, [], false)
    ensures key in s.pending ==> o.state.pending == s.pending - {key} && o.effects == [SinglePress(key)]
  {
    if key in s.pending then Outcome(KeyState(s.lastPress, s.pending - {key}), [SinglePress(key)], false)
    else Outcome(s, [], false)
  }

  /** Only `q` and `w` ever wait for a second press. */
  predicate PendingOnlyDoubleKeys(s: KeyState) {
    forall k :: k in s.pending ==> k in DoublePressMappings
  }

  /** Every event keeps the pending presses among `q` and `w`. */
  lemma {:induction false} EventsKeepPendingKeys(s: KeyState, rawKey: string, modified: bool, now: int)
    requires PendingOnlyDoubleKeys(s)
    ensures PendingOnlyDoubleKeys(KeyDown(s, rawKey, modified, now).state)
    ensures PendingOnlyDoubleKeys(KeyUp(s, rawKey).state)
    ensures PendingOnlyDoubleKeys(TimerFires(s, rawKey).state)
  {
  }

  /** Ctrl or Alt shortcuts are left to the browser: nothing changes and nothing runs. */
  lemma {:induction false} ModifiedKeysIgnored(s: KeyState, rawKey: string, now: int)
    ensures KeyDown(s, rawKey, true, now).state == s
    ensures KeyDown(s, rawKey, true, now).effects == []
    ensures !KeyDown(s, rawKey, true, now).prevented
  {
  }

  /** Pressing `q` or `w` a second time within 200 ms replays `r` or `d` instead and
      cancels the pending single press; pressing later starts a new wait. */
  lemma {:induction false} DoublePressRemaps(s: KeyState, key: string, first: int, now: int)
    requires key in DoublePressMappings && key in s.pending
    requires key in s.lastPress && s.lastPress[key] == first
    ensures now - first < DoublePressDelay ==>
      KeyDown(s, key, false, now).effects == [Simulate(DoublePressMappings[key])] &&
      key !in KeyDown(s, key, false, now).state.pending
    ensures now - first >= DoublePressDelay ==>
      KeyDown(s, key, false, now).effects == [] && key in KeyDown(s, key, false, now).state.pending
  {
    assert NormalizeKey(key) == key by { QAndWAreNormal(key); }
  }

  lemma {:induction false} QAndWAreNormal(key: string)
    requires key in DoublePressMappings
    ensures NormalizeKey(key) == key
  {
    assert key == "q" || key == "w";
  }

  /** The replayed `r` and `d` are ordinary keys that run their own action straight away. */
  lemma {:induction false} ReplayedKeyRunsItsAction(s: KeyState, key: string, now: int)
    requires key in DoublePressMappings
    ensures KeyDown(s, DoublePressMappings[key], false, now) ==
      Outcome(s, [Run(KeyMappings[DoublePressMappings[key]])], true)
    ensures PendingOnlyDoubleKeys(s) ==>
      KeyUp(KeyDown(s, DoublePressMappings[key], false, now).state, DoublePressMappings[key]) == Outcome(s, [], false)
  {
    var m := DoublePressMappings[key];
    assert m == "r" || m == "d";
    assert NormalizeKey(m) == m;
    assert m !in DoublePressMappings && m in KeyMappings;
  }

  /** Two taps of `q` with the key released in between, the second within 200 ms:
      the release runs `q`'s own action and the second tap still replays `r`, so
      both inputs are clicked. */
  lemma {:induction false} TapReleaseTapRunsBoth(s: KeyState, key: string, t0: int, t1: int)
    requires key in DoublePressMappings && key !in s.pending
    requires t0 - LastPress(s, key) >= DoublePressDelay
    requires 0 <= t1 - t0 < DoublePressDelay
    ensures var down := KeyDown(s, key, false, t0);
      var up := KeyUp(down.state, key);
      var again := KeyDown(up.state, key, false, t1);
      down.effects == [] && up.effects == [Run(KeyMappings[key])] &&
      again.effects == [Simulate(DoublePressMappings[key])]
  {
    QAndWAreNormal(key);
    assert key in KeyMappings by { assert key == "q" || key == "w"; }
  }
}

/** Typing text into a window: the table of keys built from the layout, the hex encoding of
    the text, and what a client makes of the key events it receives. */
module Typing {
  import opened Wrappers
  import opened Targets
  import opened Injection

  // The table of keys

  const ASCII: nat := 128
  const NEWLINE: nat := 10
  const TAB: nat := 9

  /** xkb keycodes are evdev codes shifted by 8. */
  const XKB_OFFSET: nat := 8
  const FIRST_KEYCODE: nat := 9
  const LAST_KEYCODE: nat := 255

  /** The character on a key's level, if the level holds exactly one symbol. */
  type Layout = (nat, nat) -> Option<nat>

  function Level(e: KeyEntry): nat {
    if e.shift then 1 else 0
  }

  /** Key `a` on level `la` is visited before key `b` on level `lb`. */
  predicate Before(a: nat, la: nat, b: nat, lb: nat) {
    a < b || (a == b && la < lb)
  }

  /** `e` is the first key among those visited before (`kc`, `lvl`) that gives `cp`. */
  ghost predicate FirstBefore(layout: Layout, cp: nat, e: KeyEntry, kc: nat, lvl: nat) {
    if e.valid then
      && FIRST_KEYCODE <= e.keycode + XKB_OFFSET
      && Before(e.keycode + XKB_OFFSET, Level(e), kc, lvl)
      && layout(e.keycode + XKB_OFFSET, Level(e)) == Some(cp)
      && forall k, l :: FIRST_KEYCODE <= k && 0 <= l < 2 && layout(k, l) == Some(cp) ==>
           !Before(k, l, e.keycode + XKB_OFFSET, Level(e))
    else
      forall k, l :: FIRST_KEYCODE <= k && 0 <= l < 2 && Before(k, l, kc, lvl) ==> layout(k, l) != Some(cp)
  }

  /** Each ASCII character has the first key of the layout that gives it, except that line
      feed and tab have their dedicated keys and the zero character has none. */
  ghost predicate TableOf(layout: Layout, chartab: seq<KeyEntry>) {
    && |chartab| == ASCII
    && !chartab[0].valid
    && chartab[NEWLINE] == KeyEntry(KEY_ENTER, false, true)
    && chartab[TAB] == KeyEntry(KEY_TAB, false, true)
    && forall cp :: 0 < cp < ASCII && cp != NEWLINE && cp != TAB ==>
         FirstBefore(layout, cp, chartab[cp], LAST_KEYCODE + 1, 0)
  }

  /** `symbols` visited up to but not including (`kc`, `lvl`). */
  ghost predicate Visited(layout: Layout, chartab: seq<KeyEntry>, kc: nat, lvl: nat) {
    && |chartab| == ASCII
    && !chartab[0].valid
    && forall cp :: 0 < cp < ASCII ==> FirstBefore(layout, cp, chartab[cp], kc, lvl)
  }

  method BuildTable(layout: Layout, chartab: array<KeyEntry>)
    requires chartab.Length == ASCII
    requires forall cp :: 0 <= cp < ASCII ==> !chartab[cp].valid
    modifies chartab
    ensures TableOf(layout, chartab[..])
  {
    for kc := FIRST_KEYCODE to LAST_KEYCODE + 1
      invariant Visited(layout, chartab[..], kc, 0)
    {
      for lvl := 0 to 2
        invariant Visited(layout, chartab[..], kc, lvl)
      {
        ghost var before := chartab[..];
        var symbol := layout(kc, lvl);
        if symbol.Some? && 0 < symbol.value < ASCII && !chartab[symbol.value].valid {
          chartab[symbol.value] := KeyEntry(kc - XKB_OFFSET, lvl == 1, true);
        }
        VisitOne(layout, before, chartab[..], kc, lvl);
      }
      NextKey(layout, chartab[..], kc);
    }
    chartab[NEWLINE] := KeyEntry(KEY_ENTER, false, true);
    chartab[TAB] := KeyEntry(KEY_TAB, false, true);
  }

  lemma VisitOne(layout: Layout, before: seq<KeyEntry>, after: seq<KeyEntry>, kc: nat, lvl: nat)
    requires Visited(layout, before, kc, lvl) && FIRST_KEYCODE <= kc && lvl < 2
    requires var symbol := layout(kc, lvl);
             after == if symbol.Some? && 0 < symbol.value < ASCII && !before[symbol.value].valid
                      then before[symbol.value := KeyEntry(kc - XKB_OFFSET, lvl == 1, true)]
                      else before
    ensures Visited(layout, after, kc, lvl + 1)
  {
    forall cp | 0 < cp < ASCII ensures FirstBefore(layout, cp, after[cp], kc, lvl + 1) {
      assert FirstBefore(layout, cp, before[cp], kc, lvl);
    }
  }

  lemma NextKey(layout: Layout, chartab: seq<KeyEntry>, kc: nat)
    requires Visited(layout, chartab, kc, 2)
    ensures Visited(layout, chartab, kc + 1, 0)
  {
    forall cp | 0 < cp < ASCII ensures FirstBefore(layout, cp, chartab[cp], kc + 1, 0) {
      assert FirstBefore(layout, cp, chartab[cp], kc, 2);
    }
  }

  // Hex

  function HexDigit(n: bv8): bv8 {
    if n < 10 then 48 + n else 87 + n
  }

  /** Two lower-case digits for each byte, as the driver sends them. */
  function HexEncode(text: seq<bv8>): seq<bv8> {
    if text == [] then []
    else [HexDigit(text[0] >> 4), HexDigit(text[0] & 15)] + HexEncode(text[1..])
  }

  lemma NibbleOfDigit(n: bv8)
    requires n < 16
    ensures Nibble(HexDigit(n)) == n as Mask
  {
  }

  lemma HexRoundTrip(b: bv8)
    ensures CodePoint(HexDigit(b >> 4), HexDigit(b & 15)) == b as Mask
  {
    NibbleOfDigit(b >> 4);
    NibbleOfDigit(b & 15);
  }

  /** Typing the encoding of a text is typing its characters one by one. */
  lemma TypeHexOfText(env: Env, s: State, t: Toplevel, text: seq<bv8>)
    requires WellFormed(s) && text != []
    ensures TypeHexStep(env, s, t, HexEncode(text)) ==
              var (typed, ok) := TypeCharStep(env, s, t, text[0] as Mask);
              if !ok then (typed, false) else TypeHexStep(env, typed, t, HexEncode(text[1..]))
  {
    var hex := HexEncode(text);
    HexRoundTrip(text[0]);
    assert hex[0] == HexDigit(text[0] >> 4) && hex[1] == HexDigit(text[0] & 15);
    assert hex[2..] == HexEncode(text[1..]);
  }

  // What the client makes of it

  /** The client of a window: the modifiers it was told of, the keys that are down, and the
      characters its key presses gave, nothing where the layout has none. */
  datatype Reader = Reader(mask: Mask, held: set<nat>, text: seq<Option<nat>>)

  const IDLE := Reader(0, {}, [])

  /** A key press read through the layout; enter and tab have a meaning of their own. */
  function Decode(layout: Layout, keycode: nat, shifted: bool): Option<nat> {
    if keycode == KEY_ENTER then Some(NEWLINE)
    else if keycode == KEY_TAB then Some(TAB)
    else layout(keycode + XKB_OFFSET, if shifted then 1 else 0)
  }

  function Press(env: Env, layout: Layout, r: Reader, keycode: nat, pressed: bool): Reader {
    if pressed then
      Reader(r.mask, r.held + {keycode}, r.text + [Decode(layout, keycode, r.mask & env.masks(Shift) != 0)])
    else
      r.(held := r.held - {keycode})
  }

  /** Seat keys go to the window with the focus, which is the one typed into. */
  function ReadEvent(env: Env, layout: Layout, t: Toplevel, r: Reader, e: Event): Reader {
    match e
    case KeyboardEnter(surface) => if surface == t.surface then r.(mask := 0) else r
    case KeyboardModifiers(surface, mask) => if surface == t.surface then r.(mask := mask) else r
    case KeyboardKey(surface, keycode, pressed) =>
      if surface == t.surface then Press(env, layout, r, keycode, pressed) else r
    case SeatKey(_, keycode, pressed) => Press(env, layout, r, keycode, pressed)
    case _ => r
  }

  function Read(env: Env, layout: Layout, t: Toplevel, r: Reader, events: seq<Event>): Reader
    decreases |events|
  {
    if events == [] then r else Read(env, layout, t, ReadEvent(env, layout, t, r, events[0]), events[1..])
  }

  lemma {:induction false} ReadAppend(
      env: Env, layout: Layout, t: Toplevel, r: Reader, a: seq<Event>, b: seq<Event>)
    ensures Read(env, layout, t, r, a + b) == Read(env, layout, t, Read(env, layout, t, r, a), b)
    decreases |a|
  {
    if a == [] {
      assert a + b == b;
    } else {
      assert (a + b)[1..] == a[1..] + b;
      ReadAppend(env, layout, t, ReadEvent(env, layout, t, r, a[0]), a[1..], b);
    }
  }

  lemma ReadOne(env: Env, layout: Layout, t: Toplevel, r: Reader, e: Event)
    ensures Read(env, layout, t, r, [e]) == ReadEvent(env, layout, t, r, e)
  {
    assert [e][1..] == [];
  }

  /** No modifier and no key is down. */
  predicate Idle(r: Reader) {
    r.mask == 0 && r.held == {}
  }

  lemma ReadStroke(env: Env, layout: Layout, s: State, t: Toplevel, r: Reader, keycode: nat)
    requires r.held == {}
    ensures Read(env, layout, t, r, Stroke(env, s, t, keycode))
            == r.(text := r.text + [Decode(layout, keycode, r.mask & env.masks(Shift) != 0)])
  {
    var press, release := KeyEvent(env, s, t, keycode, true), KeyEvent(env, s, t, keycode, false);
    assert Stroke(env, s, t, keycode) == [press] + [release];
    ReadAppend(env, layout, t, r, [press], [release]);
    ReadOne(env, layout, t, r, press);
    var pressed := ReadEvent(env, layout, t, r, press);
    assert pressed == Press(env, layout, r, keycode, true);
    ReadOne(env, layout, t, pressed, release);
    assert pressed.held - {keycode} == {};
  }

  /** A character's events read back as the character on its key; nothing stays down. */
  lemma ReadChar(env: Env, layout: Layout, s: State, t: Toplevel, r: Reader, e: KeyEntry)
    requires Idle(r) && env.masks(Shift) != 0
    ensures Read(env, layout, t, r, CharEvents(env, s, t, e))
            == r.(text := r.text + [Decode(layout, e.keycode, e.shift)])
  {
    var stroke := Stroke(env, s, t, e.keycode);
    if e.shift {
      var shift := env.masks(Shift);
      ReadFramed(env, layout, t, r, KeyboardModifiers(t.surface, shift), stroke, KeyboardModifiers(t.surface, 0));
      SelfMask(shift);
      ReadStroke(env, layout, s, t, r.(mask := shift), e.keycode);
    } else {
      ZeroMask(env.masks(Shift));
      ReadStroke(env, layout, s, t, r, e.keycode);
    }
  }

  lemma ReadFramed(
      env: Env, layout: Layout, t: Toplevel, r: Reader, first: Event, events: seq<Event>, last: Event)
    ensures Read(env, layout, t, r, [first] + events + [last])
            == ReadEvent(env, layout, t, Read(env, layout, t, ReadEvent(env, layout, t, r, first), events), last)
  {
    ReadAppend(env, layout, t, r, [first] + events, [last]);
    ReadAppend(env, layout, t, r, [first], events);
    ReadOne(env, layout, t, r, first);
    ReadOne(env, layout, t, Read(env, layout, t, ReadEvent(env, layout, t, r, first), events), last);
  }

  lemma SelfMask(mask: Mask)
    requires mask != 0
    ensures mask & mask != 0
  {
  }

  lemma ZeroMask(mask: Mask)
    ensures (0 as Mask) & mask == 0
  {
  }

  /** What reading back a typed text gives, character by character. */
  function Echo(env: Env, layout: Layout, text: seq<bv8>): seq<Option<nat>>
    requires AllTypable(env, text)
  {
    if text == [] then []
    else
      var e := env.chartab[text[0] as Mask as nat];
      [Decode(layout, e.keycode, e.shift)] + Echo(env, layout, text[1..])
  }

  predicate AllTypable(env: Env, text: seq<bv8>) {
    forall i :: 0 <= i < |text| ==> Typable(env, text[i] as Mask)
  }

  /** From `s` to `after` the client, starting as `r`, read the characters `text`. */
  ghost predicate ReadsBack(
      env: Env, layout: Layout, t: Toplevel, s: State, r: Reader, after: State, text: seq<Option<nat>>)
  {
    && WellFormed(after)
    && s.trace <= after.trace
    && Read(env, layout, t, r, Added(s, after)) == r.(text := r.text + text)
  }

  lemma TypeOneChar(env: Env, layout: Layout, s: State, t: Toplevel, r: Reader, cp: Mask) returns (after: State)
    requires WellFormed(s) && Idle(r) && env.masks(Shift) != 0
    requires env.keyboards(t.surface) && Typable(env, cp)
    ensures TypeCharStep(env, s, t, cp) == (after, true)
    ensures var e := env.chartab[cp as nat];
            ReadsBack(env, layout, t, s, r, after, [Decode(layout, e.keycode, e.shift)])
  {
    after := TypeCharStep(env, s, t, cp).0;
    var e := env.chartab[cp as nat];
    ReadAfterEnter(env, layout, s, t, r, CharEvents(env, s, t, e));
    ReadChar(env, layout, s, t, r, e);
  }

  /** Entering the keyboard changes nothing for an idle client. */
  lemma ReadAfterEnter(env: Env, layout: Layout, s: State, t: Toplevel, r: Reader, events: seq<Event>)
    requires WellFormed(s) && Idle(r) && env.keyboards(t.surface)
    ensures var after := Emit(KeyboardEnterStep(env, s, t).0, events);
            && WellFormed(after) && s.trace <= after.trace
            && Read(env, layout, t, r, Added(s, after)) == Read(env, layout, t, r, events)
  {
    var entered := KeyboardEnterStep(env, s, t).0;
    var greeting := entered.trace[|s.trace|..];
    assert greeting == [] || greeting == [KeyboardEnter(t.surface)];
    assert Added(s, Emit(entered, events)) == greeting + events;
    ReadAppend(env, layout, t, r, greeting, events);
    ReadOne(env, layout, t, r, KeyboardEnter(t.surface));
  }

  lemma ReadsBackJoins(env: Env, layout: Layout, t: Toplevel, r: Reader,
                       s: State, typed: State, after: State, a: seq<Option<nat>>, b: seq<Option<nat>>)
    requires ReadsBack(env, layout, t, s, r, typed, a)
    requires ReadsBack(env, layout, t, typed, r.(text := r.text + a), after, b)
    ensures ReadsBack(env, layout, t, s, r, after, a + b)
  {
    assert Added(s, after) == Added(s, typed) + Added(typed, after);
    ReadAppend(env, layout, t, r, Added(s, typed), Added(typed, after));
    assert r.text + a + b == r.text + (a + b);
  }

  /** The hex encoding of a typable text is typed to the end; the client reads one character
      for each, and no key or modifier stays down. */
  lemma {:induction false} TypedTextIsRead(env: Env, layout: Layout, s: State, t: Toplevel, r: Reader, text: seq<bv8>)
    returns (after: State)
    requires WellFormed(s) && Idle(r) && env.masks(Shift) != 0
    requires env.keyboards(t.surface) && AllTypable(env, text)
    ensures TypeHexStep(env, s, t, HexEncode(text)) == (after, true)
    ensures ReadsBack(env, layout, t, s, r, after, Echo(env, layout, text))
    decreases |text|
  {
    if text == [] {
      after := s;
      assert Added(s, s) == [] && r.text + [] == r.text;
    } else {
      var typed := TypeOneChar(env, layout, s, t, r, text[0] as Mask);
      var first := Echo(env, layout, text)[..1];
      TypeHexOfText(env, s, t, text);
      after := TypedTextIsRead(env, layout, typed, t, r.(text := r.text + first), text[1..]);
      ReadsBackJoins(env, layout, t, r, s, typed, after, first, Echo(env, layout, text[1..]));
    }
  }

  /** On a character without a key, what was typed is the text before it. */
  lemma {:induction false} TypingStopsAtFirstUntypable(
      env: Env, s: State, t: Toplevel, text: seq<bv8>, c: bv8, rest: seq<bv8>)
    requires WellFormed(s) && env.keyboards(t.surface)
    requires AllTypable(env, text) && !Typable(env, c as Mask)
    ensures TypeHexStep(env, s, t, HexEncode(text + [c] + rest))
            == (TypeHexStep(env, s, t, HexEncode(text)).0, false)
    decreases |text|
  {
    var all := text + [c] + rest;
    TypeHexOfText(env, s, t, all);
    if text == [] {
      assert all[0] == c;
    } else {
      TypeHexOfText(env, s, t, text);
      FirstAndRest(text, [c], rest);
      var (typed, ok) := TypeCharStep(env, s, t, text[0] as Mask);
      assert ok;
      TypingStopsAtFirstUntypable(env, typed, t, text[1..], c, rest);
    }
  }

  lemma FirstAndRest(a: seq<bv8>, b: seq<bv8>, rest: seq<bv8>)
    requires a != []
    ensures (a + b + rest)[0] == a[0] && (a + b + rest)[1..] == a[1..] + b + rest
  {
  }

  // Typing inverts the layout

  /** The character's key is not one of the two that the client reads specially. */
  predicate OrdinaryKey(env: Env, cp: nat)
    requires cp < |env.chartab|
  {
    cp == NEWLINE || cp == TAB
    || (env.chartab[cp].keycode != KEY_ENTER && env.chartab[cp].keycode != KEY_TAB)
  }

  predicate AllOrdinary(env: Env, text: seq<bv8>)
    requires AllTypable(env, text)
  {
    forall i :: 0 <= i < |text| ==> OrdinaryKey(env, text[i] as nat)
  }

  lemma DecodeInvertsTable(env: Env, layout: Layout, b: bv8)
    requires TableOf(layout, env.chartab) && Typable(env, b as Mask)
    ensures var e := env.chartab[b as Mask as nat];
            Decode(layout, e.keycode, e.shift) == Some(b as nat) <==> OrdinaryKey(env, b as nat)
  {
    var cp := b as Mask as nat;
    assert cp == b as nat;
    if cp != NEWLINE && cp != TAB {
      assert FirstBefore(layout, cp, env.chartab[cp], LAST_KEYCODE + 1, 0);
    }
  }

  /** The text itself, as the characters a client would read. */
  function Characters(text: seq<bv8>): seq<Option<nat>> {
    seq(|text|, i requires 0 <= i < |text| => Some(text[i] as nat))
  }

  lemma {:induction false} EchoExactly(env: Env, layout: Layout, text: seq<bv8>)
    requires TableOf(layout, env.chartab) && AllTypable(env, text)
    ensures Echo(env, layout, text) == Characters(text) <==> AllOrdinary(env, text)
  {
    if text != [] {
      DecodeInvertsTable(env, layout, text[0]);
      EchoExactly(env, layout, text[1..]);
      var first, tail := Echo(env, layout, text)[0], Echo(env, layout, text[1..]);
      assert Echo(env, layout, text) == [first] + tail;
      CharactersOfTail(text);
      SameHeadSameTail(first, Some(text[0] as nat), tail, Characters(text[1..]));
      OrdinaryTail(env, text);
    }
  }

  lemma CharactersOfTail(text: seq<bv8>)
    requires text != []
    ensures Characters(text) == [Some(text[0] as nat)] + Characters(text[1..])
  {
  }

  lemma SameHeadSameTail<T>(x: T, y: T, xs: seq<T>, ys: seq<T>)
    ensures [x] + xs == [y] + ys <==> x == y && xs == ys
  {
    assert ([x] + xs)[0] == x && ([x] + xs)[1..] == xs;
    assert ([y] + ys)[0] == y && ([y] + ys)[1..] == ys;
  }

  lemma OrdinaryTail(env: Env, text: seq<bv8>)
    requires AllTypable(env, text) && text != []
    ensures AllOrdinary(env, text) <==> OrdinaryKey(env, text[0] as nat) && AllOrdinary(env, text[1..])
  {
    assert forall i :: 0 <= i < |text| - 1 ==> text[1..][i] == text[i + 1];
    assert forall i :: 0 < i < |text| ==> text[i] == text[1..][i - 1];
  }

  /** The client reads the text itself exactly if all its characters have ordinary keys, and
      is left idle either way. */
  ghost predicate ReadsExactlyIfOrdinary(
      env: Env, layout: Layout, t: Toplevel, s: State, after: State, text: seq<bv8>)
    requires s.trace <= after.trace && AllTypable(env, text)
  {
    var client := Read(env, layout, t, IDLE, Added(s, after));
    && Idle(client)
    && (client.text == Characters(text) <==> AllOrdinary(env, text))
  }

  /** Typing inverts the keymap: the client of the window reads exactly the text that was
      sent, and is left with no key and no modifier down, if and only if none of the
      characters shares its key with line feed or tab. */
  lemma TypingInvertsKeymap(env: Env, layout: Layout, s: State, t: Toplevel, text: seq<bv8>)
    requires WellFormed(s) && env.keyboards(t.surface) && env.masks(Shift) != 0
    requires TableOf(layout, env.chartab) && AllTypable(env, text)
    ensures var (after, ok) := TypeHexStep(env, s, t, HexEncode(text));
            ok && s.trace <= after.trace && ReadsExactlyIfOrdinary(env, layout, t, s, after, text)
  {
    var after := TypedTextIsRead(env, layout, s, t, IDLE, text);
    assert IDLE.text + Echo(env, layout, text) == Echo(env, layout, text);
    EchoExactly(env, layout, text);
  }

  // Hotkeys

  function Chord(env: Env, s: State, t: Toplevel, mask: Mask, keycode: nat): seq<Event> {
    [KeyboardModifiers(t.surface, mask)] + Stroke(env, s, t, keycode) + [KeyboardModifiers(t.surface, 0)]
  }

  lemma ReadChord(env: Env, layout: Layout, s: State, t: Toplevel, r: Reader, mask: Mask, keycode: nat)
    requires Idle(r)
    ensures Read(env, layout, t, r, Chord(env, s, t, mask, keycode))
            == r.(text := r.text + [Decode(layout, keycode, mask & env.masks(Shift) != 0)])
  {
    var on, off := KeyboardModifiers(t.surface, mask), KeyboardModifiers(t.surface, 0);
    var pressing := r.(mask := mask);
    ReadStroke(env, layout, s, t, pressing, keycode);
    var pressed := Read(env, layout, t, pressing, Stroke(env, s, t, keycode));
    assert ReadEvent(env, layout, t, r, on) == pressing;
    assert ReadEvent(env, layout, t, pressed, off) == pressed.(mask := 0);
    ReadFramed(env, layout, t, r, on, Stroke(env, s, t, keycode), off);
  }

  lemma DeliveredHotkey(env: Env, s: State, t: Toplevel, modifiers: seq<Modifier>, key: string)
    requires WellFormed(s) && HotkeyStep(env, s, t, modifiers, key).1 == Delivered
    ensures env.keyboards(t.surface)
    ensures HotkeyStep(env, s, t, modifiers, key).0
            == Emit(KeyboardEnterStep(env, s, t).0, Chord(env, s, t, MaskOf(env, modifiers), HotkeyCode(env, key)))
  {
  }

  /** A hotkey is one press of its key under all its modifiers, and nothing stays down. */
  lemma HotkeyIsReleased(
      env: Env, layout: Layout, s: State, t: Toplevel, modifiers: seq<Modifier>, key: string, mask: Mask, keycode: nat)
    requires WellFormed(s) && HotkeyStep(env, s, t, modifiers, key).1 == Delivered
    requires mask == MaskOf(env, modifiers) && keycode == HotkeyCode(env, key)
    ensures ReadsBack(env, layout, t, s, IDLE, HotkeyStep(env, s, t, modifiers, key).0,
                      [Decode(layout, keycode, mask & env.masks(Shift) != 0)])
  {
    DeliveredHotkey(env, s, t, modifiers, key);
    ReadAfterEnter(env, layout, s, t, IDLE, Chord(env, s, t, mask, keycode));
    ReadChord(env, layout, s, t, IDLE, mask, keycode);
  }

  /** The keys that are pressed at a window, each with the modifiers in force. */
  function Presses(t: Toplevel, mask: Mask, events: seq<Event>): seq<(nat, Mask)>
    decreases |events|
  {
    if events == [] then []
    else
      var rest := events[1..];
      match events[0]
      case KeyboardEnter(surface) => Presses(t, if surface == t.surface then 0 else mask, rest)
      case KeyboardModifiers(surface, depressed) => Presses(t, if surface == t.surface then depressed else mask, rest)
      case KeyboardKey(surface, keycode, pressed) =>
        (if surface == t.surface && pressed then [(keycode, mask)] else []) + Presses(t, mask, rest)
      case SeatKey(_, keycode, pressed) => (if pressed then [(keycode, mask)] else []) + Presses(t, mask, rest)
      case _ => Presses(t, mask, rest)
  }

  lemma PressesOfChord(env: Env, s: State, t: Toplevel, mask: Mask, keycode: nat)
    ensures Presses(t, 0, Chord(env, s, t, mask, keycode)) == [(keycode, mask)]
    ensures Presses(t, 0, [KeyboardEnter(t.surface)] + Chord(env, s, t, mask, keycode)) == [(keycode, mask)]
  {
    var down, up := KeyEvent(env, s, t, keycode, true), KeyEvent(env, s, t, keycode, false);
    var on, off := KeyboardModifiers(t.surface, mask), KeyboardModifiers(t.surface, 0);
    var chord := Chord(env, s, t, mask, keycode);
    assert chord[1..] == [down, up, off] && [down, up, off][1..] == [up, off];
    assert [up, off][1..] == [off] && [off][1..] == [];
    assert Presses(t, 0, []) == [];
    assert Presses(t, mask, [off]) == [];
    assert Presses(t, mask, [up, off]) == [];
    assert Presses(t, mask, [down, up, off]) == [(keycode, mask)];
    assert ([KeyboardEnter(t.surface)] + chord)[1..] == chord;
  }

  predicate Holds(mask: Mask, bits: Mask) {
    mask & bits == bits
  }

  lemma OrHolds(a: Mask, b: Mask)
    ensures Holds(a | b, b)
  {
  }

  lemma OrKeeps(a: Mask, b: Mask, bits: Mask)
    requires Holds(a, bits)
    ensures Holds(a | b, bits)
  {
  }

  lemma LastIsHeld(env: Env, front: seq<Modifier>, last: Modifier)
    ensures Holds(MaskOf(env, front + [last]), env.masks(last))
  {
    assert (front + [last])[..|front|] == front;
    OrHolds(MaskOf(env, front), env.masks(last));
  }

  lemma FrontIsKept(env: Env, front: seq<Modifier>, last: Modifier, bits: Mask)
    requires Holds(MaskOf(env, front), bits)
    ensures Holds(MaskOf(env, front + [last]), bits)
  {
    assert (front + [last])[..|front|] == front;
    OrKeeps(MaskOf(env, front), env.masks(last), bits);
  }

  lemma {:induction false} MaskHoldsEach(env: Env, modifiers: seq<Modifier>, m: Modifier)
    requires m in modifiers
    ensures Holds(MaskOf(env, modifiers), env.masks(m))
    decreases |modifiers|
  {
    var front, last := modifiers[..|modifiers| - 1], modifiers[|modifiers| - 1];
    assert modifiers == front + [last];
    if m in front {
      MaskHoldsEach(env, front, m);
      FrontIsKept(env, front, last, env.masks(m));
    } else {
      LastIsHeld(env, front, last);
    }
  }

  /** A delivered hotkey presses its key once, with the modifiers of all its names and no
      others in force. */
  lemma HotkeyPressesUnderModifiers(env: Env, s: State, t: Toplevel, modifiers: seq<Modifier>, key: string)
    requires WellFormed(s) && HotkeyStep(env, s, t, modifiers, key).1 == Delivered
    ensures var after := HotkeyStep(env, s, t, modifiers, key).0;
            && s.trace <= after.trace
            && Presses(t, 0, Added(s, after)) == [(HotkeyCode(env, key), MaskOf(env, modifiers))]
    ensures forall m :: m in modifiers ==> Holds(MaskOf(env, modifiers), env.masks(m))
  {
    DeliveredHotkey(env, s, t, modifiers, key);
    var entered, after := KeyboardEnterStep(env, s, t).0, HotkeyStep(env, s, t, modifiers, key).0;
    var chord := Chord(env, s, t, MaskOf(env, modifiers), HotkeyCode(env, key));
    assert Added(s, after) == Added(s, entered) + chord;
    assert Added(s, entered) == [] || Added(s, entered) == [KeyboardEnter(t.surface)];
    assert [] + chord == chord;
    PressesOfChord(env, s, t, MaskOf(env, modifiers), HotkeyCode(env, key));
    forall m | m in modifiers ensures Holds(MaskOf(env, modifiers), env.masks(m)) {
      MaskHoldsEach(env, modifiers, m);
    }
  }

  // Long texts

  /** The characters of a text whose digits the scan keeps. */
  const TEXT_LIMIT: nat := HEX_LIMIT / 2

  function Kept(text: seq<bv8>): seq<bv8> {
    if |text| <= TEXT_LIMIT then text else text[..TEXT_LIMIT]
  }

  lemma {:induction false} HexEncodeAppend(a: seq<bv8>, b: seq<bv8>)
    ensures HexEncode(a + b) == HexEncode(a) + HexEncode(b)
    ensures |HexEncode(a)| == 2 * |a|
    decreases |a|
  {
    if a == [] {
      assert a + b == b;
    } else {
      assert (a + b)[1..] == a[1..] + b;
      HexEncodeAppend(a[1..], b);
    }
  }

  lemma {:induction false} OddDigitIsIgnored(env: Env, s: State, t: Toplevel, hex: seq<bv8>, digit: bv8)
    requires WellFormed(s) && |hex| % 2 == 0
    ensures TypeHexStep(env, s, t, hex + [digit]) == TypeHexStep(env, s, t, hex)
    decreases |hex|
  {
    if hex != [] {
      var (typed, ok) := TypeCharStep(env, s, t, CodePoint(hex[0], hex[1]));
      assert (hex + [digit])[2..] == hex[2..] + [digit];
      if ok {
        OddDigitIsIgnored(env, typed, t, hex[2..], digit);
      }
    }
  }

  lemma ScannedText(env: Env, s: State, t: Toplevel, text: seq<bv8>)
    requires WellFormed(s)
    ensures TypeHexStep(env, s, t, Scanned(HexEncode(text))) == TypeHexStep(env, s, t, HexEncode(Kept(text)))
  {
    HexEncodeAppend(text, []);
    if |text| > TEXT_LIMIT {
      assert text == Kept(text) + text[TEXT_LIMIT..];
      HexEncodeAppend(Kept(text), text[TEXT_LIMIT..]);
      var hex, kept := HexEncode(text), HexEncode(Kept(text));
      assert Scanned(hex) == kept + [hex[HEX_LIMIT - 1]];
      OddDigitIsIgnored(env, s, t, kept, hex[HEX_LIMIT - 1]);
    }
  }

  /** The command to type a typable text succeeds whatever the text's length, and the client
      reads one character for each up to the limit of the scan: all of them exactly if there
      are at most 4095. The line of an empty text has too few arguments. */
  lemma LongTextIsCutExactly(env: Env, layout: Layout, s: State, t: Toplevel, address: Address, text: seq<bv8>)
    requires WellFormed(s) && env.keyboards(t.surface) && env.masks(Shift) != 0 && AllTypable(env, text)
    requires Resolve(env, s.toplevels, address) == Ok(t)
    ensures var (after, refusal) := CommandStep(env, s, TypeText(address, HexEncode(text)));
            if text == [] then after == s && refusal == Some(BadArgs)
            else
              && refusal == None
              && ReadsBack(env, layout, t, s, IDLE, after, Echo(env, layout, Kept(text)))
              && (|Read(env, layout, t, IDLE, Added(s, after)).text| == |text| <==> |text| <= 4095)
  {
    TextCommand(env, s, t, address, text);
    if text != [] {
      var after := TypedTextIsRead(env, layout, s, t, IDLE, Kept(text));
      EchoLength(env, layout, Kept(text));
    }
  }

  lemma TextCommand(env: Env, s: State, t: Toplevel, address: Address, text: seq<bv8>)
    requires WellFormed(s) && Resolve(env, s.toplevels, address) == Ok(t)
    ensures CommandStep(env, s, TypeText(address, HexEncode(text)))
            == if text == [] then (s, Some(BadArgs))
               else IfFailed(TypeHexStep(env, s, t, HexEncode(Kept(text))), NoKeyboardResource)
  {
    HexEncodeAppend(text, []);
    ScannedText(env, s, t, text);
  }

  lemma {:induction false} EchoLength(env: Env, layout: Layout, text: seq<bv8>)
    requires AllTypable(env, text)
    ensures |Echo(env, layout, text)| == |text|
  {
    if text != [] {
      EchoLength(env, layout, text[1..]);
    }
  }

  // Carriage return

  /** A layout with a single key, which gives a carriage return: the one behind `KEY_ENTER`. */
  const RETURN_LAYOUT: Layout :=
    (key, level) => if key == KEY_ENTER + XKB_OFFSET && level == 0 then Some(13) else None

  const RETURN_TABLE: seq<KeyEntry> :=
    seq(ASCII, cp => if cp == NEWLINE || cp == 13 then KeyEntry(KEY_ENTER, false, true)
                     else if cp == TAB then KeyEntry(KEY_TAB, false, true)
                     else KeyEntry(0, false, false))

  const RETURN_ENV := Env(s => s, s => s, _ => true, _ => true, _ => None, RETURN_TABLE, _ => 0, _ => 1, _ => true, false)

  /** On that layout a carriage return can be typed, and is read as a line feed. */
  lemma ReturnCounterexample(t: Toplevel)
    ensures TableOf(RETURN_LAYOUT, RETURN_TABLE)
    ensures var (after, ok) := TypeHexStep(RETURN_ENV, INITIAL, t, HexEncode([13]));
            && ok && INITIAL.trace <= after.trace
            && Read(RETURN_ENV, RETURN_LAYOUT, t, IDLE, Added(INITIAL, after)).text == [Some(NEWLINE)]
  {
    assert RETURN_ENV.chartab[13] == KeyEntry(KEY_ENTER, false, true);
    var text: seq<bv8> := [13];
    var after := TypedTextIsRead(RETURN_ENV, RETURN_LAYOUT, INITIAL, t, IDLE, text);
    assert text[1..] == [] && Echo(RETURN_ENV, RETURN_LAYOUT, []) == [];
    assert Echo(RETURN_ENV, RETURN_LAYOUT, text) == [Some(NEWLINE)];
  }

  // What the table and the digits are

  /** Line feed and tab have the keys 28 and 15, unshifted, and the zero character none; any
      other ASCII character has the first key, from 9 to 255 with the unshifted level first,
      that gives it and nothing else, or none if no key does. */
  lemma TableTakesFirst(layout: Layout, chartab: seq<KeyEntry>, cp: nat, key: nat, level: nat)
    requires TableOf(layout, chartab)
    ensures |chartab| == 128 && !chartab[0].valid
    ensures chartab[10] == KeyEntry(28, false, true) && chartab[9] == KeyEntry(15, false, true)
    ensures 0 < cp < 128 && cp != 9 && cp != 10 && 9 <= key <= 255 && level < 2 && layout(key, level) == Some(cp)
            && (forall k, l :: 9 <= k && 0 <= l < 2 && (k < key || (k == key && l < level)) ==> layout(k, l) != Some(cp)) ==>
              chartab[cp] == KeyEntry(key - 8, level == 1, true)
    ensures 0 < cp < 128 && cp != 9 && cp != 10
            && (forall k, l :: 9 <= k <= 255 && 0 <= l < 2 ==> layout(k, l) != Some(cp)) ==>
              !chartab[cp].valid
  {
    if 0 < cp < 128 && cp != 9 && cp != 10 {
      assert FirstBefore(layout, cp, chartab[cp], 256, 0);
    }
  }

  /** A character can be typed exactly if it is line feed, tab, or an ASCII character other than
      zero that some key of the layout gives by itself. */
  lemma TypableExactly(env: Env, layout: Layout, cp: Mask)
    requires TableOf(layout, env.chartab)
    ensures Typable(env, cp)
            <==> || cp == 9 || cp == 10
                 || (0 < cp < 128 && exists k, l :: 9 <= k <= 255 && 0 <= l < 2 && layout(k, l) == Some(cp as nat))
  {
    if 0 < cp < 128 && cp != 9 && cp != 10 {
      var e := env.chartab[cp as nat];
      assert FirstBefore(layout, cp as nat, e, 256, 0);
      if e.valid {
        assert layout(e.keycode + 8, Level(e)) == Some(cp as nat);
      }
    }
  }

  /** The value of a digit of either case. */
  lemma DigitValue(n: bv8)
    ensures n < 10 ==> Nibble(48 + n) == n as Mask
    ensures 10 <= n < 16 ==> Nibble(97 + (n - 10)) == n as Mask && Nibble(65 + (n - 10)) == n as Mask
  {
  }

  /** What C makes of any byte: a `char` is signed, so that bytes from 128 on count as less than
      the digits; case is folded by a bit. */
  lemma AnyDigitValue(d: bv8)
    ensures d <= 57 ==> Nibble(d) == d as Mask - 48
    ensures 57 < d < 128 ==> Nibble(d) == (d | 0x20) as Mask - 87
    ensures d >= 128 ==> Nibble(d) == d as Mask - 256 - 48
  {
  }

  /** A byte below the digits, or with the upper bit set, in the place of either digit names no
      character that can be typed. */
  lemma NoDigitNoCharacter(env: Env, d: bv8, other: bv8)
    requires d < 48 || d >= 128
    ensures !Typable(env, CodePoint(d, other)) && !Typable(env, CodePoint(other, d))
  {
    AnyDigitValue(d);
    assert Nibble(d) >= 0xFFFF_FED0;
    HighBitsStay(Nibble(d), Nibble(other));
  }

  lemma HighBitsStay(nibble: Mask, other: Mask)
    requires nibble >= 0xFFFF_FED0
    ensures (nibble << 4) | other >= 128 && (other << 4) | nibble >= 128
  {
  }

  /** The byte of two digits. */
  lemma DigitsMakeByte(high: bv8, low: bv8, hex: bv8, other: bv8)
    requires high < 16 && low < 16 && Nibble(hex) == high as Mask && Nibble(other) == low as Mask
    ensures CodePoint(hex, other) as int == 16 * (high as int) + low as int
  {
    assert CodePoint(hex, other) == ((high as Mask) << 4) | (low as Mask);
    JoinNibbles(high as Mask, low as Mask);
  }

  lemma JoinNibbles(high: Mask, low: Mask)
    requires high < 16 && low < 16
    ensures ((high << 4) | low) as int == 16 * (high as int) + low as int
  {
    assert (high << 4) | low == 16 * high + low;
  }
}

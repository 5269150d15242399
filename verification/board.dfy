/** Board constants and the colours that hints are shown in (board.py, keyboard.py). */
module Board {
  import opened Scoring

  const MAX_GUESS: nat := 6
  const WORD_LENGTH: nat := 5

  /** The colours a key or a cell can take: the three hint colours and the keyboard's
      default key colour. Only their identity matters to the game logic. */
  datatype Color = Green | Yellow | Grey | DefaultKey

  /** HINTS_COLORS.get(hint, DEFAULT_KEY_COLOR): CORRECT is green, PRESENT yellow, ABSENT grey,
      and any other code falls back to the default key colour. */
  function HintColor(h: int): (c: Color)
    ensures c == Green <==> h == CORRECT
    ensures c == Yellow <==> h == PRESENT
    ensures c == Grey <==> h == ABSENT
    ensures c == DefaultKey <==> !IsHintCode(h)
  {
    if h == 1 then Green else if h == 2 then Yellow else if h == 3 then Grey else DefaultKey
  }

  /** The priority of a key colour: GREEN > YELLOW > GREY > default. */
  function Rank(c: Color): nat {
    match c
    case Green => 3
    case Yellow => 2
    case Grey => 1
    case DefaultKey => 0
  }

  function Max(x: int, y: int): int { if x >= y then x else y }
}

/** The on-screen keyboard layout (keyboard.py). */
module Keyboard {
  import opened Board

  const LAYOUT: seq<string> := ["QWERTYUIOP", "ASDFGHJKL", "ZXCVBNM"]

  /** KEYBOARD_LAYOUT[0] + KEYBOARD_LAYOUT[1] + KEYBOARD_LAYOUT[2]. */
  const LAYOUT_KEYS: string := LAYOUT[0] + LAYOUT[1] + LAYOUT[2]

  /** Python's `key in s` on two strings: key is a contiguous run of s; the empty string is
      a run of every string. */
  function Occurs(key: string, s: string): bool
    decreases |s|
  {
    key <= s || (|s| > 0 && Occurs(key, s[1..]))
  }

  /** key sits in s starting at index i. */
  predicate OccursAt(key: string, s: string, i: nat) {
    i + |key| <= |s| && s[i..i + |key|] == key
  }

  /** Occurs finds key exactly when key sits in s at some index. */
  lemma {:induction false} OccursIff(key: string, s: string)
    ensures Occurs(key, s) <==> exists i: nat :: OccursAt(key, s, i)
    decreases |s|
  {
    if key <= s {
      assert OccursAt(key, s, 0);
    }
    if |s| > 0 {
      var t := s[1..];
      OccursIff(key, t);
      if Occurs(key, t) {
        var i: nat :| OccursAt(key, t, i);
        assert s[i + 1..i + 1 + |key|] == t[i..i + |key|];
        assert OccursAt(key, s, i + 1);
      }
      if exists i: nat :: OccursAt(key, s, i) {
        var i: nat :| OccursAt(key, s, i);
        if i == 0 {
          assert key <= s;
        } else {
          assert t[i - 1..i - 1 + |key|] == s[i..i + |key|];
          assert OccursAt(key, t, i - 1);
        }
      }
    } else if exists i: nat :: OccursAt(key, s, i) {
      var i: nat :| OccursAt(key, s, i);
      assert key <= s;
    }
  }

  /** The test update_ui and on_keyboard_event apply to a key: it occurs in the letters of the
      layout read row by row. */
  predicate IsInputKey(key: string) {
    Occurs(key, LAYOUT_KEYS)
  }

  /** A one-character key is an input key exactly when it is a letter of the layout. */
  lemma SingleInputKey(key: string)
    requires |key| == 1
    ensures IsInputKey(key) <==> key[0] in LAYOUT_KEYS
  {
    OccursIff(key, LAYOUT_KEYS);
    if key[0] in LAYOUT_KEYS {
      var i :| 0 <= i < |LAYOUT_KEYS| && LAYOUT_KEYS[i] == key[0];
      assert OccursAt(key, LAYOUT_KEYS, i);
    }
    if IsInputKey(key) {
      var i: nat :| OccursAt(key, LAYOUT_KEYS, i);
      assert LAYOUT_KEYS[i] == LAYOUT_KEYS[i..i + 1][0];
    }
  }

  /** The named keys are not input keys, so update_ui routes them to their own branches:
      the layout has no N before index 24 and no B before index 18. */
  lemma NamedKeysNotInput()
    ensures !IsInputKey("ENTER") && !IsInputKey("BACKSPACE")
  {
    EnterNotInput();
    BackspaceNotInput();
  }

  lemma EnterNotInput()
    ensures !IsInputKey("ENTER")
  {
    OccursIff("ENTER", LAYOUT_KEYS);
    forall i: nat
      ensures !OccursAt("ENTER", LAYOUT_KEYS, i)
    {
      LetterMissingBefore("ENTER", 1, 24, i);
    }
  }

  lemma BackspaceNotInput()
    ensures !IsInputKey("BACKSPACE")
  {
    OccursIff("BACKSPACE", LAYOUT_KEYS);
    forall i: nat
      ensures !OccursAt("BACKSPACE", LAYOUT_KEYS, i)
    {
      LetterMissingBefore("BACKSPACE", 0, 18, i);
    }
  }

  /** A key whose k-th letter is absent from the first n keys of the layout, where every
      placement of the key puts that letter among those n, sits nowhere in the layout. */
  lemma LetterMissingBefore(key: string, k: nat, n: nat, i: nat)
    requires k < |key| && n <= |LAYOUT_KEYS| && key[k] !in LAYOUT_KEYS[..n]
    requires |LAYOUT_KEYS| - |key| + k < n
    ensures !OccursAt(key, LAYOUT_KEYS, i)
  {
    if i + |key| <= |LAYOUT_KEYS| {
      assert LAYOUT_KEYS[..n][i + k] == LAYOUT_KEYS[i + k] == LAYOUT_KEYS[i..i + |key|][k];
    }
  }

  /** Every layout key at the default key colour. */
  function InitialStatuses(): map<char, Color> {
    map c | c in LAYOUT_KEYS :: DefaultKey
  }

  /** The starting colours hold exactly the layout's letters, each at the default colour. */
  lemma InitialStatusesKeys()
    ensures forall c :: c in InitialStatuses() <==> c in LAYOUT_KEYS
    ensures forall c :: c in InitialStatuses() ==> InitialStatuses()[c] == DefaultKey
  {
  }
}

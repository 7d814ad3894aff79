/** The easter egg of Script.js: a module-level array of the most recent key codes,
    appended on every `keydown` and cut from the front once it is longer than the
    ten-key Konami sequence (up up down down left right left right B A). When the
    buffer, joined with commas, equals the sequence joined with commas, rainbow mode
    starts. */
module KonamiCode {
  import opened JsStrings
  import opened Numerals

  /** Key codes of up, up, down, down, left, right, left, right, B, A. */
  const KonamiSequence: seq<nat> := [38, 38, 40, 40, 37, 39, 37, 39, 66, 65]

  /** `codes.join(',')`: each code in decimal, separated by commas. */
  function CodesText(codes: seq<nat>): string {
    Join(seq(|codes|, i requires 0 <= i < |codes| => NatToString(codes[i])), ',')
  }

  /** Comparing the comma-joined text of two key-code lists is the same as comparing
      the lists: a comma never occurs in a decimal number, and decimal text is
      read back uniquely. */
  lemma {:induction false} CodesTextEqualIff(a: seq<nat>, b: seq<nat>)
    ensures CodesText(a) == CodesText(b) <==> a == b
  {
    if CodesText(a) == CodesText(b) {
      var pa := seq(|a|, i requires 0 <= i < |a| => NatToString(a[i]));
      var pb := seq(|b|, i requires 0 <= i < |b| => NatToString(b[i]));
      forall i | 0 <= i < |pa| ensures ',' !in pa[i] {
        assert AllDigits(pa[i]);
      }
      forall i | 0 <= i < |pb| ensures ',' !in pb[i] {
        assert AllDigits(pb[i]);
      }
      if |a| == 0 && |b| == 0 {
      } else if |a| == 0 {
        SplitJoin(pb, ',');
        assert false;
      } else if |b| == 0 {
        SplitJoin(pa, ',');
        assert false;
      } else {
        SplitJoin(pa, ',');
        SplitJoin(pb, ',');
        assert pa == pb;
        forall i | 0 <= i < |a| ensures a[i] == b[i] {
          assert pa[i] == pb[i];
          NatToStringInjective(a[i], b[i]);
        }
      }
    }
  }

  /** The last `min(|keys|, 10)` key codes of a key history, oldest first. */
  function Recent(keys: seq<nat>): (w: seq<nat>)
    ensures |w| == if |keys| <= |KonamiSequence| then |keys| else |KonamiSequence|
    ensures forall i :: 0 <= i < |w| ==> w[i] == keys[|keys| - |w| + i]
  {
    if |keys| <= |KonamiSequence| then keys else keys[|keys| - |KonamiSequence|..]
  }

  /** Rainbow mode is due after a key history exactly when its last ten codes are the
      Konami sequence. */
  predicate Triggers(keys: seq<nat>) {
    |keys| >= |KonamiSequence| && keys[|keys| - |KonamiSequence|..] == KonamiSequence
  }

  /** One keydown seen by the buffer: push, then shift once if it grew past ten. */
  lemma {:induction false} RecentAfterKey(keys: seq<nat>, code: nat)
    ensures var pushed := Recent(keys) + [code];
            Recent(keys + [code]) ==
              if |pushed| > |KonamiSequence| then pushed[1..] else pushed
  {
    var pushed := Recent(keys) + [code];
    var k := keys + [code];
    if |pushed| > |KonamiSequence| {
      assert |keys| >= |KonamiSequence|;
      assert k[|k| - |KonamiSequence|..] == pushed[1..];
    }
  }

  lemma {:induction false} RecentIsKonamiIff(keys: seq<nat>)
    ensures Recent(keys) == KonamiSequence <==> Triggers(keys)
  {
  }

  /** Fewer than ten keystrokes never start rainbow mode. */
  lemma {:induction false} ShortHistoryNeverTriggers(keys: seq<nat>)
    requires |keys| < |KonamiSequence|
    ensures !Triggers(keys)
  {
  }

  /** After any history, the ten keys up up down down left right left right B A
      start rainbow mode, and any other ten keys at the end do not. */
  lemma {:induction false} TriggersOnlyOnSequence(earlier: seq<nat>, last: seq<nat>)
    requires |last| == |KonamiSequence|
    ensures Triggers(earlier + last) <==> last == KonamiSequence
  {
    var k := earlier + last;
    assert k[|k| - |KonamiSequence|..] == last;
  }

  /** The page's keydown listener together with the buffer it owns. */
  class KonamiListener {
    /** The buffer Script.js keeps in `konamiCode`. */
    var konamiCode: seq<nat>
    /** Every key code seen so far, oldest first. */
    ghost var keys: seq<nat>

    ghost predicate Valid()
      reads this
    {
      konamiCode == Recent(keys)
    }

    /** The buffer starts empty when the script loads. */
    constructor ()
      ensures Valid() && keys == [] && konamiCode == []
    {
      konamiCode := [];
      keys := [];
    }

    /** A `keydown` with key code `keyCode`; `rainbow` is true when the listener starts
        rainbow mode. */
    method KeyDown(keyCode: nat) returns (rainbow: bool)
      requires Valid()
      modifies this
      ensures Valid()
      ensures keys == old(keys) + [keyCode]
      ensures |konamiCode| <= |KonamiSequence|
      ensures rainbow <==> Triggers(keys)
    {
      RecentAfterKey(keys, keyCode);
      keys := keys + [keyCode];
      konamiCode := konamiCode + [keyCode];
      if |konamiCode| > |KonamiSequence| {
        konamiCode := konamiCode[1..];
      }
      rainbow := CodesText(konamiCode) == CodesText(KonamiSequence);
      CodesTextEqualIff(konamiCode, KonamiSequence);
      RecentIsKonamiIff(keys);
    }
  }
}

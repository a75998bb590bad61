/**
 * Properties of the spelling normaliser: what the chain guarantees about
 * the unspaced greeting, and its behaviour on concrete announcements.
 */
module LafazFacts {
  import opened Lafaz

  /** The unspaced greeting matched by the rule of server.js:74. */
  const Unspaced: Pattern := "Assalamualaikum"

  /** The replacement of server.js:74 overlaps no part of the greeting it could complete. */
  lemma AssalamualaikumOverlapsNot()
    ensures forall j :: 0 <= j < |Unspaced| && Agree("Assalamu alaikum", Unspaced[j..]) ==> StartsWithCI("Assalamualaikum", Unspaced[j..])
  {
    var r, q := "Assalamu alaikum", Unspaced;
    forall j | 0 <= j < |q| ensures !Agree(r, q[j..]) {
      match j {
        case 0 => Disagree(r, q[0..], 8);
        case 1 => Disagree(r, q[1..], 0);
        case 2 => Disagree(r, q[2..], 0);
        case 3 => Disagree(r, q[3..], 1);
        case 4 => Disagree(r, q[4..], 0);
        case 5 => Disagree(r, q[5..], 1);
        case 6 => Disagree(r, q[6..], 0);
        case 7 => Disagree(r, q[7..], 0);
        case 8 => Disagree(r, q[8..], 1);
        case 9 => Disagree(r, q[9..], 0);
        case 10 => Disagree(r, q[10..], 1);
        case 11 => Disagree(r, q[11..], 0);
        case 12 => Disagree(r, q[12..], 0);
        case 13 => Disagree(r, q[13..], 0);
        case 14 => Disagree(r, q[14..], 0);
        case _ => assert false;
      }
    }
  }

  /** No tail of the replacement of server.js:74 begins the greeting. */
  lemma AssalamualaikumEndsClean()
    ensures forall k :: 0 <= k < |"Assalamu alaikum"| ==> !Agree("Assalamu alaikum"[k..], Unspaced)
  {
    var r, q := "Assalamu alaikum", Unspaced;
    forall k | 0 <= k < |r| ensures !Agree(r[k..], q) {
      match k {
        case 0 => Disagree(r[0..], q, 8);
        case 1 => Disagree(r[1..], q, 0);
        case 2 => Disagree(r[2..], q, 0);
        case 3 => Disagree(r[3..], q, 1);
        case 4 => Disagree(r[4..], q, 0);
        case 5 => Disagree(r[5..], q, 1);
        case 6 => Disagree(r[6..], q, 0);
        case 7 => Disagree(r[7..], q, 0);
        case 8 => Disagree(r[8..], q, 0);
        case 9 => Disagree(r[9..], q, 1);
        case 10 => Disagree(r[10..], q, 0);
        case 11 => Disagree(r[11..], q, 1);
        case 12 => Disagree(r[12..], q, 0);
        case 13 => Disagree(r[13..], q, 0);
        case 14 => Disagree(r[14..], q, 0);
        case 15 => Disagree(r[15..], q, 0);
        case _ => assert false;
      }
    }
  }

  lemma HarmlessAssalamualaikum()
    ensures Harmless(Lexicon[11], Unspaced)
  {
    assert Lexicon[11] == Rule("Assalamualaikum", "Assalamu alaikum", false);
    AssalamualaikumOverlapsNot();
    AssalamualaikumEndsClean();
  }

  /** The replacement of server.js:75 overlaps no part of the greeting it could complete. */
  lemma WassalamualaikumOverlapsNot()
    ensures forall j :: 0 <= j < |Unspaced| && Agree("Wassalamu alaikum", Unspaced[j..]) ==> StartsWithCI("Wassalamualaikum", Unspaced[j..])
  {
    var r, q := "Wassalamu alaikum", Unspaced;
    forall j | 0 <= j < |q| ensures !Agree(r, q[j..]) {
      match j {
        case 0 => Disagree(r, q[0..], 0);
        case 1 => Disagree(r, q[1..], 0);
        case 2 => Disagree(r, q[2..], 0);
        case 3 => Disagree(r, q[3..], 0);
        case 4 => Disagree(r, q[4..], 0);
        case 5 => Disagree(r, q[5..], 0);
        case 6 => Disagree(r, q[6..], 0);
        case 7 => Disagree(r, q[7..], 0);
        case 8 => Disagree(r, q[8..], 0);
        case 9 => Disagree(r, q[9..], 0);
        case 10 => Disagree(r, q[10..], 0);
        case 11 => Disagree(r, q[11..], 0);
        case 12 => Disagree(r, q[12..], 0);
        case 13 => Disagree(r, q[13..], 0);
        case 14 => Disagree(r, q[14..], 0);
        case _ => assert false;
      }
    }
  }

  /** No tail of the replacement of server.js:75 begins the greeting. */
  lemma WassalamualaikumEndsClean()
    ensures forall k :: 0 <= k < |"Wassalamu alaikum"| ==> !Agree("Wassalamu alaikum"[k..], Unspaced)
  {
    var r, q := "Wassalamu alaikum", Unspaced;
    forall k | 0 <= k < |r| ensures !Agree(r[k..], q) {
      match k {
        case 0 => Disagree(r[0..], q, 0);
        case 1 => Disagree(r[1..], q, 8);
        case 2 => Disagree(r[2..], q, 0);
        case 3 => Disagree(r[3..], q, 0);
        case 4 => Disagree(r[4..], q, 1);
        case 5 => Disagree(r[5..], q, 0);
        case 6 => Disagree(r[6..], q, 1);
        case 7 => Disagree(r[7..], q, 0);
        case 8 => Disagree(r[8..], q, 0);
        case 9 => Disagree(r[9..], q, 0);
        case 10 => Disagree(r[10..], q, 1);
        case 11 => Disagree(r[11..], q, 0);
        case 12 => Disagree(r[12..], q, 1);
        case 13 => Disagree(r[13..], q, 0);
        case 14 => Disagree(r[14..], q, 0);
        case 15 => Disagree(r[15..], q, 0);
        case 16 => Disagree(r[16..], q, 0);
        case _ => assert false;
      }
    }
  }

  lemma HarmlessWassalamualaikum()
    ensures Harmless(Lexicon[12], Unspaced)
  {
    assert Lexicon[12] == Rule("Wassalamualaikum", "Wassalamu alaikum", false);
    WassalamualaikumOverlapsNot();
    WassalamualaikumEndsClean();
  }

  /** The replacement of server.js:76 overlaps no part of the greeting it could complete. */
  lemma WarahmatullahiOverlapsNot()
    ensures forall j :: 0 <= j < |Unspaced| && Agree("Warohmatullohi", Unspaced[j..]) ==> StartsWithCI("Warahmatullahi", Unspaced[j..])
  {
    var r, q := "Warohmatullohi", Unspaced;
    forall j | 0 <= j < |q| ensures !Agree(r, q[j..]) {
      match j {
        case 0 => Disagree(r, q[0..], 0);
        case 1 => Disagree(r, q[1..], 0);
        case 2 => Disagree(r, q[2..], 0);
        case 3 => Disagree(r, q[3..], 0);
        case 4 => Disagree(r, q[4..], 0);
        case 5 => Disagree(r, q[5..], 0);
        case 6 => Disagree(r, q[6..], 0);
        case 7 => Disagree(r, q[7..], 0);
        case 8 => Disagree(r, q[8..], 0);
        case 9 => Disagree(r, q[9..], 0);
        case 10 => Disagree(r, q[10..], 0);
        case 11 => Disagree(r, q[11..], 0);
        case 12 => Disagree(r, q[12..], 0);
        case 13 => Disagree(r, q[13..], 0);
        case 14 => Disagree(r, q[14..], 0);
        case _ => assert false;
      }
    }
  }

  /** No tail of the replacement of server.js:76 begins the greeting. */
  lemma WarahmatullahiEndsClean()
    ensures forall k :: 0 <= k < |"Warohmatullohi"| ==> !Agree("Warohmatullohi"[k..], Unspaced)
  {
    var r, q := "Warohmatullohi", Unspaced;
    forall k | 0 <= k < |r| ensures !Agree(r[k..], q) {
      match k {
        case 0 => Disagree(r[0..], q, 0);
        case 1 => Disagree(r[1..], q, 1);
        case 2 => Disagree(r[2..], q, 0);
        case 3 => Disagree(r[3..], q, 0);
        case 4 => Disagree(r[4..], q, 0);
        case 5 => Disagree(r[5..], q, 0);
        case 6 => Disagree(r[6..], q, 1);
        case 7 => Disagree(r[7..], q, 0);
        case 8 => Disagree(r[8..], q, 0);
        case 9 => Disagree(r[9..], q, 0);
        case 10 => Disagree(r[10..], q, 0);
        case 11 => Disagree(r[11..], q, 0);
        case 12 => Disagree(r[12..], q, 0);
        case 13 => Disagree(r[13..], q, 0);
        case _ => assert false;
      }
    }
  }

  lemma HarmlessWarahmatullahi()
    ensures Harmless(Lexicon[13], Unspaced)
  {
    assert Lexicon[13] == Rule("Warahmatullahi", "Warohmatullohi", false);
    WarahmatullahiOverlapsNot();
    WarahmatullahiEndsClean();
  }

  /** The replacement of server.js:77 overlaps no part of the greeting it could complete. */
  lemma WabarakatuhOverlapsNot()
    ensures forall j :: 0 <= j < |Unspaced| && Agree("Wabarokatuh", Unspaced[j..]) ==> StartsWithCI("Wabarakatuh", Unspaced[j..])
  {
    var r, q := "Wabarokatuh", Unspaced;
    forall j | 0 <= j < |q| ensures !Agree(r, q[j..]) {
      match j {
        case 0 => Disagree(r, q[0..], 0);
        case 1 => Disagree(r, q[1..], 0);
        case 2 => Disagree(r, q[2..], 0);
        case 3 => Disagree(r, q[3..], 0);
        case 4 => Disagree(r, q[4..], 0);
        case 5 => Disagree(r, q[5..], 0);
        case 6 => Disagree(r, q[6..], 0);
        case 7 => Disagree(r, q[7..], 0);
        case 8 => Disagree(r, q[8..], 0);
        case 9 => Disagree(r, q[9..], 0);
        case 10 => Disagree(r, q[10..], 0);
        case 11 => Disagree(r, q[11..], 0);
        case 12 => Disagree(r, q[12..], 0);
        case 13 => Disagree(r, q[13..], 0);
        case 14 => Disagree(r, q[14..], 0);
        case _ => assert false;
      }
    }
  }

  /** No tail of the replacement of server.js:77 begins the greeting. */
  lemma WabarakatuhEndsClean()
    ensures forall k :: 0 <= k < |"Wabarokatuh"| ==> !Agree("Wabarokatuh"[k..], Unspaced)
  {
    var r, q := "Wabarokatuh", Unspaced;
    forall k | 0 <= k < |r| ensures !Agree(r[k..], q) {
      match k {
        case 0 => Disagree(r[0..], q, 0);
        case 1 => Disagree(r[1..], q, 1);
        case 2 => Disagree(r[2..], q, 0);
        case 3 => Disagree(r[3..], q, 1);
        case 4 => Disagree(r[4..], q, 0);
        case 5 => Disagree(r[5..], q, 0);
        case 6 => Disagree(r[6..], q, 0);
        case 7 => Disagree(r[7..], q, 1);
        case 8 => Disagree(r[8..], q, 0);
        case 9 => Disagree(r[9..], q, 0);
        case 10 => Disagree(r[10..], q, 0);
        case _ => assert false;
      }
    }
  }

  lemma HarmlessWabarakatuh()
    ensures Harmless(Lexicon[14], Unspaced)
  {
    assert Lexicon[14] == Rule("Wabarakatuh", "Wabarokatuh", false);
    WabarakatuhOverlapsNot();
    WabarakatuhEndsClean();
  }

  /** The replacement of server.js:79 overlaps no part of the greeting it could complete. */
  lemma SalatOverlapsNot()
    ensures forall j :: 0 <= j < |Unspaced| && Agree("Sholat", Unspaced[j..]) ==> StartsWithCI("Salat", Unspaced[j..])
  {
    var r, q := "Sholat", Unspaced;
    forall j | 0 <= j < |q| ensures !Agree(r, q[j..]) {
      match j {
        case 0 => Disagree(r, q[0..], 0);
        case 1 => Disagree(r, q[1..], 1);
        case 2 => Disagree(r, q[2..], 1);
        case 3 => Disagree(r, q[3..], 0);
        case 4 => Disagree(r, q[4..], 0);
        case 5 => Disagree(r, q[5..], 0);
        case 6 => Disagree(r, q[6..], 0);
        case 7 => Disagree(r, q[7..], 0);
        case 8 => Disagree(r, q[8..], 0);
        case 9 => Disagree(r, q[9..], 0);
        case 10 => Disagree(r, q[10..], 0);
        case 11 => Disagree(r, q[11..], 0);
        case 12 => Disagree(r, q[12..], 0);
        case 13 => Disagree(r, q[13..], 0);
        case 14 => Disagree(r, q[14..], 0);
        case _ => assert false;
      }
    }
  }

  /** No tail of the replacement of server.js:79 begins the greeting. */
  lemma SalatEndsClean()
    ensures forall k :: 0 <= k < |"Sholat"| ==> !Agree("Sholat"[k..], Unspaced)
  {
    var r, q := "Sholat", Unspaced;
    forall k | 0 <= k < |r| ensures !Agree(r[k..], q) {
      match k {
        case 0 => Disagree(r[0..], q, 0);
        case 1 => Disagree(r[1..], q, 0);
        case 2 => Disagree(r[2..], q, 0);
        case 3 => Disagree(r[3..], q, 0);
        case 4 => Disagree(r[4..], q, 1);
        case 5 => Disagree(r[5..], q, 0);
        case _ => assert false;
      }
    }
  }

  lemma HarmlessSalat()
    ensures Harmless(Lexicon[16], Unspaced)
  {
    assert Lexicon[16] == Rule("Salat", "Sholat", false);
    SalatOverlapsNot();
    SalatEndsClean();
  }

  /** The replacement of server.js:80 overlaps no part of the greeting it could complete. */
  lemma DzuhurOverlapsNot()
    ensures forall j :: 0 <= j < |Unspaced| && Agree("Zuhur", Unspaced[j..]) ==> StartsWithCI("Dzuhur", Unspaced[j..])
  {
    var r, q := "Zuhur", Unspaced;
    forall j | 0 <= j < |q| ensures !Agree(r, q[j..]) {
      match j {
        case 0 => Disagree(r, q[0..], 0);
        case 1 => Disagree(r, q[1..], 0);
        case 2 => Disagree(r, q[2..], 0);
        case 3 => Disagree(r, q[3..], 0);
        case 4 => Disagree(r, q[4..], 0);
        case 5 => Disagree(r, q[5..], 0);
        case 6 => Disagree(r, q[6..], 0);
        case 7 => Disagree(r, q[7..], 0);
        case 8 => Disagree(r, q[8..], 0);
        case 9 => Disagree(r, q[9..], 0);
        case 10 => Disagree(r, q[10..], 0);
        case 11 => Disagree(r, q[11..], 0);
        case 12 => Disagree(r, q[12..], 0);
        case 13 => Disagree(r, q[13..], 0);
        case 14 => Disagree(r, q[14..], 0);
        case _ => assert false;
      }
    }
  }

  /** No tail of the replacement of server.js:80 begins the greeting. */
  lemma DzuhurEndsClean()
    ensures forall k :: 0 <= k < |"Zuhur"| ==> !Agree("Zuhur"[k..], Unspaced)
  {
    var r, q := "Zuhur", Unspaced;
    forall k | 0 <= k < |r| ensures !Agree(r[k..], q) {
      match k {
        case 0 => Disagree(r[0..], q, 0);
        case 1 => Disagree(r[1..], q, 0);
        case 2 => Disagree(r[2..], q, 0);
        case 3 => Disagree(r[3..], q, 0);
        case 4 => Disagree(r[4..], q, 0);
        case _ => assert false;
      }
    }
  }

  lemma HarmlessDzuhur()
    ensures Harmless(Lexicon[17], Unspaced)
  {
    assert Lexicon[17] == Rule("Dzuhur", "Zuhur", false);
    DzuhurOverlapsNot();
    DzuhurEndsClean();
  }

  /** The replacement of server.js:81 overlaps no part of the greeting it could complete. */
  lemma AsharOverlapsNot()
    ensures forall j :: 0 <= j < |Unspaced| && Agree("Asar", Unspaced[j..]) ==> StartsWithCI("Ashar", Unspaced[j..])
  {
    var r, q := "Asar", Unspaced;
    forall j | 0 <= j < |q| ensures !Agree(r, q[j..]) {
      match j {
        case 0 => Disagree(r, q[0..], 2);
        case 1 => Disagree(r, q[1..], 0);
        case 2 => Disagree(r, q[2..], 0);
        case 3 => Disagree(r, q[3..], 1);
        case 4 => Disagree(r, q[4..], 0);
        case 5 => Disagree(r, q[5..], 1);
        case 6 => Disagree(r, q[6..], 0);
        case 7 => Disagree(r, q[7..], 0);
        case 8 => Disagree(r, q[8..], 1);
        case 9 => Disagree(r, q[9..], 0);
        case 10 => Disagree(r, q[10..], 1);
        case 11 => Disagree(r, q[11..], 0);
        case 12 => Disagree(r, q[12..], 0);
        case 13 => Disagree(r, q[13..], 0);
        case 14 => Disagree(r, q[14..], 0);
        case _ => assert false;
      }
    }
  }

  /** No tail of the replacement of server.js:81 begins the greeting. */
  lemma AsharEndsClean()
    ensures forall k :: 0 <= k < |"Asar"| ==> !Agree("Asar"[k..], Unspaced)
  {
    var r, q := "Asar", Unspaced;
    forall k | 0 <= k < |r| ensures !Agree(r[k..], q) {
      match k {
        case 0 => Disagree(r[0..], q, 2);
        case 1 => Disagree(r[1..], q, 0);
        case 2 => Disagree(r[2..], q, 1);
        case 3 => Disagree(r[3..], q, 0);
        case _ => assert false;
      }
    }
  }

  lemma HarmlessAshar()
    ensures Harmless(Lexicon[18], Unspaced)
  {
    assert Lexicon[18] == Rule("Ashar", "Asar", false);
    AsharOverlapsNot();
    AsharEndsClean();
  }

  /** The replacement of server.js:82 overlaps no part of the greeting it could complete. */
  lemma MaghribOverlapsNot()
    ensures forall j :: 0 <= j < |Unspaced| - 1 ==> !Agree("Magrib", Unspaced[j..])
    ensures StartsWithCI("Maghrib", Unspaced[14..])
  {
    var r, p, q := "Magrib", "Maghrib", Unspaced;
    StartsByChars(p, q[14..]);
    forall j | 0 <= j < |q| - 1 ensures !Agree(r, q[j..]) {
      match j {
        case 0 => Disagree(r, q[0..], 0);
        case 1 => Disagree(r, q[1..], 0);
        case 2 => Disagree(r, q[2..], 0);
        case 3 => Disagree(r, q[3..], 0);
        case 4 => Disagree(r, q[4..], 0);
        case 5 => Disagree(r, q[5..], 0);
        case 6 => Disagree(r, q[6..], 1);
        case 7 => Disagree(r, q[7..], 0);
        case 8 => Disagree(r, q[8..], 0);
        case 9 => Disagree(r, q[9..], 0);
        case 10 => Disagree(r, q[10..], 0);
        case 11 => Disagree(r, q[11..], 0);
        case 12 => Disagree(r, q[12..], 0);
        case 13 => Disagree(r, q[13..], 0);
        case _ => assert false;
      }
    }
  }

  /** No tail of the replacement of server.js:82 begins the greeting. */
  lemma MaghribEndsClean()
    ensures forall k :: 0 <= k < |"Magrib"| ==> !Agree("Magrib"[k..], Unspaced)
  {
    var r, q := "Magrib", Unspaced;
    forall k | 0 <= k < |r| ensures !Agree(r[k..], q) {
      match k {
        case 0 => Disagree(r[0..], q, 0);
        case 1 => Disagree(r[1..], q, 1);
        case 2 => Disagree(r[2..], q, 0);
        case 3 => Disagree(r[3..], q, 0);
        case 4 => Disagree(r[4..], q, 0);
        case 5 => Disagree(r[5..], q, 0);
        case _ => assert false;
      }
    }
  }

  lemma HarmlessMaghrib()
    ensures Harmless(Lexicon[19], Unspaced)
  {
    assert Lexicon[19] == Rule("Maghrib", "Magrib", false);
    MaghribOverlapsNot();
    MaghribEndsClean();
  }

  /** The rules of server.js:78, :83 and :84 change letter case only. */
  lemma CaseOnlyRules()
    ensures CaseOnly(Lexicon[15]) && CaseOnly(Lexicon[20]) && CaseOnly(Lexicon[21])
  {
  }

  /** Every rule after server.js:74 keeps the greeting out of the text. */
  lemma LaterRulesKeep()
    ensures forall n :: 0 <= n < |Lexicon[12..]| ==> Keeps(Lexicon[12..][n], Unspaced)
  {
    forall n | 0 <= n < |Lexicon[12..]| ensures Keeps(Lexicon[12..][n], Unspaced) {
      assert Lexicon[12..][n] == Lexicon[12 + n];
      if n == 0 {
        HarmlessWassalamualaikum();
      } else if n == 1 {
        HarmlessWarahmatullahi();
      } else if n == 2 {
        HarmlessWabarakatuh();
      } else if n == 4 {
        HarmlessSalat();
      } else if n == 5 {
        HarmlessDzuhur();
      } else if n == 6 {
        HarmlessAshar();
      } else if n == 7 {
        HarmlessMaghrib();
      } else {
        CaseOnlyRules();
      }
    }
  }

  /** Right after the rule of server.js:74 the unspaced greeting is gone. */
  lemma GreetingCleared(text: string)
    ensures Absent(Stage(text, 12), Unspaced)
  {
    StageNext(text, 11);
    HarmlessAssalamualaikum();
    ReplaceAvoids(Stage(text, 11), 0, Lexicon[11], Unspaced);
  }

  /** The normalised text never contains "assalamualaikum", in any case. */
  lemma NoUnspacedGreeting(text: string)
    ensures Absent(Normalize(text), Unspaced)
  {
    GreetingCleared(text);
    assert Lexicon == Lexicon[..12] + Lexicon[12..];
    ApplyAllSplit(Lexicon[..12], Lexicon[12..], text);
    LaterRulesKeep();
    ApplyAllKeeps(Lexicon[12..], Stage(text, 12), Unspaced);
  }

  /** A "Wassalamualaikum" at `k` is an unspaced greeting at `k + 1`. */
  lemma WassalamHoldsGreeting(s: string, k: nat)
    requires k <= |s| && StartsWithCI(s[k..], Lexicon[12].pattern)
    ensures StartsWithCI(s[k + 1..], Unspaced)
  {
    var w := Lexicon[12].pattern;
    assert w[1..] == "assalamualaikum";
    assert s[k..][1..] == s[k + 1..];
    StartsByChars(w[1..], Unspaced);
    StartsTrans(s[k + 1..], w[1..], Unspaced);
  }

  /**
   * The rule of server.js:75 never fires: every "Wassalamualaikum" holds the
   * unspaced greeting, which the rule just before it has already rewritten.
   */
  lemma WassalamRuleNeverFires(text: string)
    ensures forall k :: 0 <= k <= |Stage(text, 12)| ==> !Hit(Stage(text, 12), k, Lexicon[12].pattern, false)
    ensures Apply(Lexicon[12], Stage(text, 12)) == Stage(text, 12)
  {
    var s := Stage(text, 12);
    var w := Lexicon[12].pattern;
    GreetingCleared(text);
    forall k | 0 <= k <= |s| ensures !Hit(s, k, w, false) {
      if StartsWithCI(s[k..], w) {
        WassalamHoldsGreeting(s, k);
        assert false;
      }
    }
    assert Lexicon[12].whole == false;
    ReplaceNoHit(s, 0, w, Lexicon[12].replacement, false);
  }

  // ---------------------------------------------------------------------
  // Concrete announcements
  // ---------------------------------------------------------------------

  /** `s` is spelled exactly as `w`, one character at a time. */
  predicate Spells(s: string, w: string) {
    |s| == |w| && forall m :: 0 <= m < |w| ==> s[m] == w[m]
  }

  /** A character absent from a stretch of the spelling is absent from the text. */
  lemma SpellsLacks(s: string, w: string, a: nat, b: nat, c: char)
    requires Spells(s, w) && a <= b <= |w|
    requires forall m :: a <= m < b ==> LowerChar(w[m]) != c
    ensures forall m :: a <= m < b ==> LowerChar(s[m]) != c
  {
  }

  /** `out` is `w` with `w[i..j]` replaced by `r`, stated per position. */
  predicate Splices(w: string, i: nat, j: nat, r: string, out: string) {
    && i <= j <= |w|
    && |out| == i + |r| + (|w| - j)
    && (forall m :: 0 <= m < i ==> out[m] == w[m])
    && (forall m :: 0 <= m < |r| ==> out[i + m] == r[m])
    && (forall m :: j <= m < |w| ==> out[m - j + i + |r|] == w[m])
  }

  /** Splicing `r` over `s[i..j]` spells the same splice of the spelling. */
  lemma SpellsParts(s: string, w: string, i: nat, j: nat, r: string, out: string)
    requires Spells(s, w) && Splices(w, i, j, r, out)
    ensures Spells(s[..i] + r + s[j..], out)
  {
    var x := s[..i] + r + s[j..];
    forall m | 0 <= m < |out| ensures x[m] == out[m] {
      if m < i {
      } else if m < i + |r| {
        assert out[i + (m - i)] == r[m - i];
      } else {
        assert x[m] == s[m - i - |r| + j];
        assert out[(m - i - |r| + j) - j + i + |r|] == w[m - i - |r| + j];
      }
    }
  }

  /**
   * Lines `a` to `b - 1` keep the spelling of a text that lacks, for each of
   * them, the letter of its pattern at the position `js` names.
   */
  lemma SpelledStagesKeep(x: string, a: nat, b: nat, js: seq<nat>, w: string, cs: string)
    requires a <= b <= |Lexicon| && |js| == |Lexicon| && NeedsOneOf(a, b, js, cs)
    requires Spells(Stage(x, a), w) && forall n :: 0 <= n < |cs| ==> Lacks(w, cs[n])
    ensures Spells(Stage(x, b), w)
  {
    var s := Stage(x, a);
    forall n | 0 <= n < |cs| ensures Lacks(s, cs[n]) {
      assert Lacks(w, cs[n]);
    }
    StagesKeep(x, a, b, js, s, cs);
  }

  /**
   * Lines 63 and 64 on the greeting: the name at positions 17 to 22, as
   * spelled before each line runs, is matched and replaced by "Alloh" ...
   */
  lemma GreetingNameHit(s: string, w: string, p: Pattern)
    requires w == "Assalamualaikum, Allah SWT" || w == "Assalamualaikum, Alloh SWT"
    requires p == w[17..22] && Spells(s, w)
    ensures ReplaceFrom(s, 17, p, "Alloh", true) == "Alloh" + ReplaceFrom(s, 22, p, "Alloh", true)
  {
    StartsByChars(s[17..], p);
    ReplaceHit(s, 17, p, "Alloh", true);
  }

  /** ... and the rest of the text, which has no further "a", is copied. */
  lemma GreetingNameTail(s: string, w: string, p: Pattern)
    requires w == "Assalamualaikum, Allah SWT" || w == "Assalamualaikum, Alloh SWT"
    requires p == w[17..22] && Spells(s, w)
    ensures ReplaceFrom(s, 22, p, "Alloh", true) == s[22..]
  {
    SpellsLacks(s, w, 22, 26, 'a');
    ReplaceTail(s, 22, p, "Alloh", true, 0);
  }

  lemma GreetingStage0Part0(s: string)
    requires Spells(s, "Assalamualaikum, Allah SWT")
    ensures ReplaceFrom(s, 0, "Allah", "Alloh", true) == s[0..17] + ReplaceFrom(s, 17, "Allah", "Alloh", true)
  {
    SpellsLacks(s, "Assalamualaikum, Allah SWT", 4, 21, 'h');
    ReplaceRun(s, 0, 17, "Allah", "Alloh", true, 4);
  }

  lemma GreetingStage0Spliced()
    ensures Splices("Assalamualaikum, Allah SWT", 17, 22, "Alloh", "Assalamualaikum, Alloh SWT")
  {
  }

  lemma GreetingStage0(s: string)
    requires Spells(s, "Assalamualaikum, Allah SWT")
    ensures Spells(Apply(Lexicon[0], s), "Assalamualaikum, Alloh SWT")
  {
    assert Lexicon[0] == Rule("Allah", "Alloh", true);
    GreetingStage0Part0(s);
    GreetingNameHit(s, "Assalamualaikum, Allah SWT", "Allah");
    GreetingNameTail(s, "Assalamualaikum, Allah SWT", "Allah");
    GreetingStage0Spliced();
    SpellsParts(s, "Assalamualaikum, Allah SWT", 17, 22, "Alloh", "Assalamualaikum, Alloh SWT");
  }

  lemma GreetingStage1Part0(s: string)
    requires Spells(s, "Assalamualaikum, Alloh SWT")
    ensures ReplaceFrom(s, 0, "Alloh", "Alloh", true) == s[0..17] + ReplaceFrom(s, 17, "Alloh", "Alloh", true)
  {
    SpellsLacks(s, "Assalamualaikum, Alloh SWT", 3, 20, 'o');
    ReplaceRun(s, 0, 17, "Alloh", "Alloh", true, 3);
  }

  lemma GreetingStage1Spliced()
    ensures Splices("Assalamualaikum, Alloh SWT", 17, 22, "Alloh", "Assalamualaikum, Alloh SWT")
  {
  }

  lemma GreetingStage1(s: string)
    requires Spells(s, "Assalamualaikum, Alloh SWT")
    ensures Spells(Apply(Lexicon[1], s), "Assalamualaikum, Alloh SWT")
  {
    assert Lexicon[1] == Rule("Alloh", "Alloh", true);
    GreetingStage1Part0(s);
    GreetingNameHit(s, "Assalamualaikum, Alloh SWT", "Alloh");
    GreetingNameTail(s, "Assalamualaikum, Alloh SWT", "Alloh");
    GreetingStage1Spliced();
    SpellsParts(s, "Assalamualaikum, Alloh SWT", 17, 22, "Alloh", "Assalamualaikum, Alloh SWT");
  }

  lemma GreetingStage3Part0(s: string)
    requires Spells(s, "Assalamualaikum, Alloh SWT")
    ensures ReplaceFrom(s, 0, "SWT", "Subhanahu wa Ta'ala", true) == s[0..23] + ReplaceFrom(s, 23, "SWT", "Subhanahu wa Ta'ala", true)
  {
    SpellsLacks(s, "Assalamualaikum, Alloh SWT", 1, 24, 'w');
    ReplaceRun(s, 0, 23, "SWT", "Subhanahu wa Ta'ala", true, 1);
  }

  lemma GreetingStage3Part1(s: string)
    requires Spells(s, "Assalamualaikum, Alloh SWT")
    ensures ReplaceFrom(s, 23, "SWT", "Subhanahu wa Ta'ala", true) == "Subhanahu wa Ta'ala" + ReplaceFrom(s, 26, "SWT", "Subhanahu wa Ta'ala", true)
  {
    StartsByChars(s[23..], "SWT");
    ReplaceHit(s, 23, "SWT", "Subhanahu wa Ta'ala", true);
  }

  lemma GreetingStage3Spliced()
    ensures Splices("Assalamualaikum, Alloh SWT", 23, 26, "Subhanahu wa Ta'ala", "Assalamualaikum, Alloh Subhanahu wa Ta'ala")
  {
  }

  lemma GreetingStage3(s: string)
    requires Spells(s, "Assalamualaikum, Alloh SWT")
    ensures Spells(Apply(Lexicon[3], s), "Assalamualaikum, Alloh Subhanahu wa Ta'ala")
  {
    assert Lexicon[3] == Rule("SWT", "Subhanahu wa Ta'ala", true);
    GreetingStage3Part0(s);
    GreetingStage3Part1(s);
    GreetingStage3Spliced();
    SpellsParts(s, "Assalamualaikum, Alloh SWT", 23, 26, "Subhanahu wa Ta'ala", "Assalamualaikum, Alloh Subhanahu wa Ta'ala");
  }

  lemma GreetingStage4Part0(s: string)
    requires Spells(s, "Assalamualaikum, Alloh Subhanahu wa Ta'ala")
    ensures ReplaceFrom(s, 0, "SAW", "Shallallahu alaihi wa sallam", true) == s[0..31] + ReplaceFrom(s, 31, "SAW", "Shallallahu alaihi wa sallam", true)
  {
    SpellsLacks(s, "Assalamualaikum, Alloh Subhanahu wa Ta'ala", 2, 33, 'w');
    ReplaceRun(s, 0, 31, "SAW", "Shallallahu alaihi wa sallam", true, 2);
  }

  lemma GreetingStage4Part1(s: string)
    requires Spells(s, "Assalamualaikum, Alloh Subhanahu wa Ta'ala")
    ensures ReplaceFrom(s, 31, "SAW", "Shallallahu alaihi wa sallam", true) == s[31..]
  {
    SpellsLacks(s, "Assalamualaikum, Alloh Subhanahu wa Ta'ala", 31, 42, 's');
    ReplaceTail(s, 31, "SAW", "Shallallahu alaihi wa sallam", true, 0);
  }

  lemma GreetingStage4(s: string)
    requires Spells(s, "Assalamualaikum, Alloh Subhanahu wa Ta'ala")
    ensures Spells(Apply(Lexicon[4], s), "Assalamualaikum, Alloh Subhanahu wa Ta'ala")
  {
    assert Lexicon[4] == Rule("SAW", "Shallallahu alaihi wa sallam", true);
    GreetingStage4Part0(s);
    GreetingStage4Part1(s);
  }

  lemma GreetingStage11Part0(s: string)
    requires Spells(s, "Assalamualaikum, Alloh Subhanahu wa Ta'ala")
    ensures ReplaceFrom(s, 0, "Assalamualaikum", "Assalamu alaikum", false) == "Assalamu alaikum" + ReplaceFrom(s, 15, "Assalamualaikum", "Assalamu alaikum", false)
  {
    StartsByChars(s[0..], "Assalamualaikum");
    ReplaceHit(s, 0, "Assalamualaikum", "Assalamu alaikum", false);
  }

  lemma GreetingStage11Part1(s: string)
    requires Spells(s, "Assalamualaikum, Alloh Subhanahu wa Ta'ala")
    ensures ReplaceFrom(s, 15, "Assalamualaikum", "Assalamu alaikum", false) == s[15..]
  {
    SpellsLacks(s, "Assalamualaikum, Alloh Subhanahu wa Ta'ala", 21, 42, 'm');
    ReplaceTail(s, 15, "Assalamualaikum", "Assalamu alaikum", false, 6);
  }

  lemma GreetingStage11Spliced()
    ensures Splices("Assalamualaikum, Alloh Subhanahu wa Ta'ala", 0, 15, "Assalamu alaikum", "Assalamu alaikum, Alloh Subhanahu wa Ta'ala")
  {
  }

  lemma GreetingStage11(s: string)
    requires Spells(s, "Assalamualaikum, Alloh Subhanahu wa Ta'ala")
    ensures Spells(Apply(Lexicon[11], s), "Assalamu alaikum, Alloh Subhanahu wa Ta'ala")
  {
    assert Lexicon[11] == Rule("Assalamualaikum", "Assalamu alaikum", false);
    GreetingStage11Part0(s);
    GreetingStage11Part1(s);
    GreetingStage11Spliced();
    SpellsParts(s, "Assalamualaikum, Alloh Subhanahu wa Ta'ala", 0, 15, "Assalamu alaikum", "Assalamu alaikum, Alloh Subhanahu wa Ta'ala");
  }

  lemma GreetingStage12Part0(s: string)
    requires Spells(s, "Assalamu alaikum, Alloh Subhanahu wa Ta'ala")
    ensures ReplaceFrom(s, 0, "Wassalamualaikum", "Wassalamu alaikum", false) == s[0..34] + ReplaceFrom(s, 34, "Wassalamualaikum", "Wassalamu alaikum", false)
  {
    SpellsLacks(s, "Assalamu alaikum, Alloh Subhanahu wa Ta'ala", 0, 34, 'w');
    ReplaceRun(s, 0, 34, "Wassalamualaikum", "Wassalamu alaikum", false, 0);
  }

  lemma GreetingStage12Part1(s: string)
    requires Spells(s, "Assalamu alaikum, Alloh Subhanahu wa Ta'ala")
    ensures ReplaceFrom(s, 34, "Wassalamualaikum", "Wassalamu alaikum", false) == s[34..]
  {
    SpellsLacks(s, "Assalamu alaikum, Alloh Subhanahu wa Ta'ala", 36, 43, 's');
    ReplaceTail(s, 34, "Wassalamualaikum", "Wassalamu alaikum", false, 2);
  }

  lemma GreetingStage12(s: string)
    requires Spells(s, "Assalamu alaikum, Alloh Subhanahu wa Ta'ala")
    ensures Spells(Apply(Lexicon[12], s), "Assalamu alaikum, Alloh Subhanahu wa Ta'ala")
  {
    assert Lexicon[12] == Rule("Wassalamualaikum", "Wassalamu alaikum", false);
    GreetingStage12Part0(s);
    GreetingStage12Part1(s);
  }

  lemma GreetingStage15Part0(s: string)
    requires Spells(s, "Assalamu alaikum, Alloh Subhanahu wa Ta'ala")
    ensures ReplaceFrom(s, 0, "Sholat", "Sholat", false) == s[0..32] + ReplaceFrom(s, 32, "Sholat", "Sholat", false)
  {
    SpellsLacks(s, "Assalamu alaikum, Alloh Subhanahu wa Ta'ala", 5, 37, 't');
    ReplaceRun(s, 0, 32, "Sholat", "Sholat", false, 5);
  }

  lemma GreetingStage15Part1(s: string)
    requires Spells(s, "Assalamu alaikum, Alloh Subhanahu wa Ta'ala")
    ensures ReplaceFrom(s, 32, "Sholat", "Sholat", false) == s[32..]
  {
    SpellsLacks(s, "Assalamu alaikum, Alloh Subhanahu wa Ta'ala", 32, 43, 's');
    ReplaceTail(s, 32, "Sholat", "Sholat", false, 0);
  }

  lemma GreetingStage15(s: string)
    requires Spells(s, "Assalamu alaikum, Alloh Subhanahu wa Ta'ala")
    ensures Spells(Apply(Lexicon[15], s), "Assalamu alaikum, Alloh Subhanahu wa Ta'ala")
  {
    assert Lexicon[15] == Rule("Sholat", "Sholat", false);
    GreetingStage15Part0(s);
    GreetingStage15Part1(s);
  }

  lemma GreetingStage16Part0(s: string)
    requires Spells(s, "Assalamu alaikum, Alloh Subhanahu wa Ta'ala")
    ensures ReplaceFrom(s, 0, "Salat", "Sholat", false) == s[0..33] + ReplaceFrom(s, 33, "Salat", "Sholat", false)
  {
    SpellsLacks(s, "Assalamu alaikum, Alloh Subhanahu wa Ta'ala", 4, 37, 't');
    ReplaceRun(s, 0, 33, "Salat", "Sholat", false, 4);
  }

  lemma GreetingStage16Part1(s: string)
    requires Spells(s, "Assalamu alaikum, Alloh Subhanahu wa Ta'ala")
    ensures ReplaceFrom(s, 33, "Salat", "Sholat", false) == s[33..]
  {
    SpellsLacks(s, "Assalamu alaikum, Alloh Subhanahu wa Ta'ala", 33, 43, 's');
    ReplaceTail(s, 33, "Salat", "Sholat", false, 0);
  }

  lemma GreetingStage16(s: string)
    requires Spells(s, "Assalamu alaikum, Alloh Subhanahu wa Ta'ala")
    ensures Spells(Apply(Lexicon[16], s), "Assalamu alaikum, Alloh Subhanahu wa Ta'ala")
  {
    assert Lexicon[16] == Rule("Salat", "Sholat", false);
    GreetingStage16Part0(s);
    GreetingStage16Part1(s);
  }

  lemma GreetingStage21Part0(s: string)
    requires Spells(s, "Assalamu alaikum, Alloh Subhanahu wa Ta'ala")
    ensures ReplaceFrom(s, 0, "Subuh", "Subuh", false) == s[0..24] + ReplaceFrom(s, 24, "Subuh", "Subuh", false)
  {
    SpellsLacks(s, "Assalamu alaikum, Alloh Subhanahu wa Ta'ala", 2, 26, 'b');
    ReplaceRun(s, 0, 24, "Subuh", "Subuh", false, 2);
  }

  lemma GreetingStage21Part1(s: string)
    requires Spells(s, "Assalamu alaikum, Alloh Subhanahu wa Ta'ala")
    ensures ReplaceFrom(s, 24, "Subuh", "Subuh", false) == s[24..29] + ReplaceFrom(s, 29, "Subuh", "Subuh", false)
  {
    SpellsLacks(s, "Assalamu alaikum, Alloh Subhanahu wa Ta'ala", 27, 32, 'u');
    ReplaceRun(s, 24, 29, "Subuh", "Subuh", false, 3);
  }

  lemma GreetingStage21Part2(s: string)
    requires Spells(s, "Assalamu alaikum, Alloh Subhanahu wa Ta'ala")
    ensures ReplaceFrom(s, 29, "Subuh", "Subuh", false) == s[29..]
  {
    SpellsLacks(s, "Assalamu alaikum, Alloh Subhanahu wa Ta'ala", 29, 43, 's');
    ReplaceTail(s, 29, "Subuh", "Subuh", false, 0);
  }

  lemma GreetingStage21(s: string)
    requires Spells(s, "Assalamu alaikum, Alloh Subhanahu wa Ta'ala")
    ensures Spells(Apply(Lexicon[21], s), "Assalamu alaikum, Alloh Subhanahu wa Ta'ala")
  {
    assert Lexicon[21] == Rule("Subuh", "Subuh", false);
    GreetingStage21Part0(s);
    GreetingStage21Part1(s);
    GreetingStage21Part2(s);
  }

  lemma GreetingStages0To2(x: string)
    requires Spells(x, "Assalamualaikum, Allah SWT")
    ensures Spells(Stage(x, 2), "Assalamualaikum, Alloh SWT")
  {
    assert Stage(x, 0) == x;
    StageNext(x, 0);
    GreetingStage0(Stage(x, 0));
    StageNext(x, 1);
    GreetingStage1(Stage(x, 1));
  }

  /** For each line the greeting skips, a letter of its pattern that the text lacks. */
  const GreetingLetters: seq<nat> := [0, 0, 0, 0, 0, 2, 6, 5, 2, 2, 2, 0, 0, 2, 4, 0, 0, 0, 4, 2, 2, 0]

  lemma GreetingOpeningNeed()
    ensures NeedsOneOf(2, 3, GreetingLetters, "r")
    ensures NeedsOneOf(5, 11, GreetingLetters, "-d")
  {
  }

  lemma GreetingClosingNeed()
    ensures NeedsOneOf(13, 15, GreetingLetters, "rdgy")
    ensures NeedsOneOf(17, 21, GreetingLetters, "rdgy")
  {
  }

  lemma GreetingOpeningLacks()
    ensures Lacks("Assalamualaikum, Alloh SWT", 'r')
    ensures forall n :: 0 <= n < 2 ==> Lacks("Assalamualaikum, Alloh Subhanahu wa Ta'ala", "-d"[n])
  {
  }

  lemma GreetingClosingLacks()
    ensures forall n :: 0 <= n < 4 ==> Lacks("Assalamu alaikum, Alloh Subhanahu wa Ta'ala", "rdgy"[n])
  {
  }

  lemma GreetingStages2To5(x: string)
    requires Spells(Stage(x, 2), "Assalamualaikum, Alloh SWT")
    ensures Spells(Stage(x, 5), "Assalamualaikum, Alloh Subhanahu wa Ta'ala")
  {
    GreetingOpeningNeed();
    GreetingOpeningLacks();
    SpelledStagesKeep(x, 2, 3, GreetingLetters, "Assalamualaikum, Alloh SWT", "r");
    StageNext(x, 3);
    GreetingStage3(Stage(x, 3));
    StageNext(x, 4);
    GreetingStage4(Stage(x, 4));
  }

  lemma GreetingStages5To13(x: string)
    requires Spells(Stage(x, 5), "Assalamualaikum, Alloh Subhanahu wa Ta'ala")
    ensures Spells(Stage(x, 13), "Assalamu alaikum, Alloh Subhanahu wa Ta'ala")
  {
    GreetingOpeningNeed();
    GreetingOpeningLacks();
    SpelledStagesKeep(x, 5, 11, GreetingLetters, "Assalamualaikum, Alloh Subhanahu wa Ta'ala", "-d");
    StageNext(x, 11);
    GreetingStage11(Stage(x, 11));
    StageNext(x, 12);
    GreetingStage12(Stage(x, 12));
  }

  lemma GreetingStages13To22(x: string)
    requires Spells(Stage(x, 13), "Assalamu alaikum, Alloh Subhanahu wa Ta'ala")
    ensures Spells(Stage(x, 22), "Assalamu alaikum, Alloh Subhanahu wa Ta'ala")
  {
    GreetingClosingNeed();
    GreetingClosingLacks();
    SpelledStagesKeep(x, 13, 15, GreetingLetters, "Assalamu alaikum, Alloh Subhanahu wa Ta'ala", "rdgy");
    StageNext(x, 15);
    GreetingStage15(Stage(x, 15));
    StageNext(x, 16);
    GreetingStage16(Stage(x, 16));
    SpelledStagesKeep(x, 17, 21, GreetingLetters, "Assalamu alaikum, Alloh Subhanahu wa Ta'ala", "rdgy");
    StageNext(x, 21);
    GreetingStage21(Stage(x, 21));
  }

  lemma GreetingChain(x: string)
    requires Spells(x, "Assalamualaikum, Allah SWT")
    ensures Spells(Normalize(x), "Assalamu alaikum, Alloh Subhanahu wa Ta'ala")
  {
    GreetingStages0To2(x);
    GreetingStages2To5(x);
    GreetingStages5To13(x);
    GreetingStages13To22(x);
    StageAll(x);
  }

  /** The greeting example: the rules of server.js:74, :63 and :66 fire. */
  lemma GreetingVector()
    ensures Normalize("Assalamualaikum, Allah SWT") == "Assalamu alaikum, Alloh Subhanahu wa Ta'ala"
  {
    GreetingChain("Assalamualaikum, Allah SWT");
  }

  /** For each line the closing greeting skips, a letter of its pattern that the text lacks. */
  const WassalamLetters: seq<nat> := [4, 4, 0, 2, 0, 2, 2, 5, 2, 2, 2, 0, 0, 2, 2, 1, 4, 0, 2, 2, 2, 2]

  lemma WassalamEarlyNeed()
    ensures NeedsOneOf(0, 4, WassalamLetters, "hort- d")
    ensures NeedsOneOf(5, 11, WassalamLetters, "hort- d")
  {
  }

  lemma WassalamLateNeed()
    ensures NeedsOneOf(13, 22, WassalamLetters, "rbhtdgy")
  {
  }

  lemma WassalamLacks()
    ensures forall n :: 0 <= n < 7 ==> Lacks("Wassalamualaikum", "hort- d"[n])
    ensures forall n :: 0 <= n < 7 ==> Lacks("WAssalamu alaikum", "rbhtdgy"[n])
  {
  }

  lemma WassalamStage4(s: string)
    requires Spells(s, "Wassalamualaikum")
    ensures Spells(Apply(Lexicon[4], s), "Wassalamualaikum")
  {
    assert Lexicon[4] == Rule("SAW", "Shallallahu alaihi wa sallam", true);
    SpellsLacks(s, "Wassalamualaikum", 2, 16, 'w');
    ReplaceTail(s, 0, "SAW", "Shallallahu alaihi wa sallam", true, 2);
  }

  lemma WassalamStage11Part0(s: string)
    requires Spells(s, "Wassalamualaikum")
    ensures ReplaceFrom(s, 0, "Assalamualaikum", "Assalamu alaikum", false) == s[0..1] + ReplaceFrom(s, 1, "Assalamualaikum", "Assalamu alaikum", false)
  {
    SpellsLacks(s, "Wassalamualaikum", 0, 1, 'a');
    ReplaceRun(s, 0, 1, "Assalamualaikum", "Assalamu alaikum", false, 0);
  }

  lemma WassalamStage11Part1(s: string)
    requires Spells(s, "Wassalamualaikum")
    ensures ReplaceFrom(s, 1, "Assalamualaikum", "Assalamu alaikum", false) == "Assalamu alaikum" + ReplaceFrom(s, 16, "Assalamualaikum", "Assalamu alaikum", false)
  {
    StartsByChars(s[1..], "Assalamualaikum");
    ReplaceHit(s, 1, "Assalamualaikum", "Assalamu alaikum", false);
  }

  lemma WassalamStage11Spliced()
    ensures Splices("Wassalamualaikum", 1, 16, "Assalamu alaikum", "WAssalamu alaikum")
  {
  }

  lemma WassalamStage11(s: string)
    requires Spells(s, "Wassalamualaikum")
    ensures Spells(Apply(Lexicon[11], s), "WAssalamu alaikum")
  {
    assert Lexicon[11] == Rule("Assalamualaikum", "Assalamu alaikum", false);
    WassalamStage11Part0(s);
    WassalamStage11Part1(s);
    WassalamStage11Spliced();
    SpellsParts(s, "Wassalamualaikum", 1, 16, "Assalamu alaikum", "WAssalamu alaikum");
  }

  lemma WassalamStage12Part0(s: string)
    requires Spells(s, "WAssalamu alaikum")
    ensures ReplaceFrom(s, 0, "Wassalamualaikum", "Wassalamu alaikum", false) == s[0..1] + ReplaceFrom(s, 1, "Wassalamualaikum", "Wassalamu alaikum", false)
  {
    SpellsLacks(s, "WAssalamu alaikum", 9, 10, 'a');
    ReplaceRun(s, 0, 1, "Wassalamualaikum", "Wassalamu alaikum", false, 9);
  }

  lemma WassalamStage12Part1(s: string)
    requires Spells(s, "WAssalamu alaikum")
    ensures ReplaceFrom(s, 1, "Wassalamualaikum", "Wassalamu alaikum", false) == s[1..]
  {
    SpellsLacks(s, "WAssalamu alaikum", 1, 17, 'w');
    ReplaceTail(s, 1, "Wassalamualaikum", "Wassalamu alaikum", false, 0);
  }

  lemma WassalamStage12(s: string)
    requires Spells(s, "WAssalamu alaikum")
    ensures Spells(Apply(Lexicon[12], s), "WAssalamu alaikum")
  {
    assert Lexicon[12] == Rule("Wassalamualaikum", "Wassalamu alaikum", false);
    WassalamStage12Part0(s);
    WassalamStage12Part1(s);
  }

  lemma WassalamStages0To11(x: string)
    requires Spells(x, "Wassalamualaikum")
    ensures Spells(Stage(x, 11), "Wassalamualaikum")
  {
    assert Stage(x, 0) == x;
    WassalamEarlyNeed();
    WassalamLacks();
    SpelledStagesKeep(x, 0, 4, WassalamLetters, "Wassalamualaikum", "hort- d");
    StageNext(x, 4);
    WassalamStage4(Stage(x, 4));
    SpelledStagesKeep(x, 5, 11, WassalamLetters, "Wassalamualaikum", "hort- d");
  }

  lemma WassalamStages11To22(x: string)
    requires Spells(Stage(x, 11), "Wassalamualaikum")
    ensures Spells(Stage(x, 22), "WAssalamu alaikum")
  {
    StageNext(x, 11);
    WassalamStage11(Stage(x, 11));
    StageNext(x, 12);
    WassalamStage12(Stage(x, 12));
    WassalamLateNeed();
    WassalamLacks();
    SpelledStagesKeep(x, 13, 22, WassalamLetters, "WAssalamu alaikum", "rbhtdgy");
  }

  lemma WassalamChain(x: string)
    requires Spells(x, "Wassalamualaikum")
    ensures Spells(Normalize(x), "WAssalamu alaikum")
  {
    WassalamStages0To11(x);
    WassalamStages11To22(x);
    StageAll(x);
  }

  /**
   * The closing greeting keeps its "W" but gains a capital "A": the rule of
   * server.js:74 matches inside it first, so the rule of :75 is never reached.
   */
  lemma WassalamVector()
    ensures Normalize("Wassalamualaikum") == "WAssalamu alaikum"
  {
    WassalamChain("Wassalamualaikum");
  }

  // ---------------------------------------------------------------------
  // Normalising twice
  // ---------------------------------------------------------------------

  /** The first letter of each pattern, or the second for line 65. */
  const FirstLetters: seq<nat> := [0, 0, 1, 0, 0, 0, 0, 0, 0, 0, 0, 0, 0, 0, 0, 0, 0, 0, 0, 0, 0, 0]

  /** Every line before server.js:80 has an `a`, `s` or `w` where `FirstLetters` points. */
  lemma EarlyRulesNeed()
    ensures NeedsOneOf(0, 17, FirstLetters, "asw")
  {
  }

  /** Every line after server.js:80 has an `a`, `m`, `i` or `s` where `FirstLetters` points. */
  lemma LateRulesNeed()
    ensures NeedsOneOf(18, 22, FirstLetters, "amis")
  {
  }

  /** A text without those letters is changed by the rule of line 80 alone. */
  lemma DzuhurOnly(x: string, y: string)
    requires Lacks(x, 'a') && Lacks(x, 's') && Lacks(x, 'w')
    requires Apply(Lexicon[17], x) == y
    requires Lacks(y, 'a') && Lacks(y, 'm') && Lacks(y, 'i') && Lacks(y, 's')
    ensures Normalize(x) == y
  {
    assert Stage(x, 0) == x;
    EarlyRulesNeed();
    StagesKeep(x, 0, 17, FirstLetters, x, "asw");
    StageNext(x, 17);
    LateRulesNeed();
    StagesKeep(x, 18, 22, FirstLetters, y, "amis");
    StageAll(x);
  }

  /**
   * The rule of line 80 on "DDzuhur" skips the first "D" and rewrites the
   * rest, which leaves a new "DZuhur" that a second application rewrites.
   */
  lemma DzuhurRewrites()
    ensures Apply(Lexicon[17], "DDzuhur") == "DZuhur"
    ensures Apply(Lexicon[17], "DZuhur") == "Zuhur"
  {
    var x, y := "DDzuhur", "DZuhur";
    assert Lexicon[17] == Rule("Dzuhur", "Zuhur", false);
    MissAt(x[0..], "Dzuhur", 1);
    ReplaceMiss(x, 0, "Dzuhur", "Zuhur", false);
    ReplaceHit(x, 1, "Dzuhur", "Zuhur", false);
    ReplaceHit(y, 0, "Dzuhur", "Zuhur", false);
  }

  lemma DzuhurLetters()
    ensures Lacks("DDzuhur", 'a') && Lacks("DDzuhur", 's') && Lacks("DDzuhur", 'w')
    ensures Lacks("DZuhur", 'a') && Lacks("DZuhur", 's') && Lacks("DZuhur", 'w') && Lacks("DZuhur", 'm') && Lacks("DZuhur", 'i')
    ensures Lacks("Zuhur", 'a') && Lacks("Zuhur", 's') && Lacks("Zuhur", 'm') && Lacks("Zuhur", 'i')
  {
  }

  /** The first pass over "DDzuhur" gives "DZuhur". */
  lemma DoubledDzuhurOnce()
    ensures Normalize("DDzuhur") == "DZuhur"
  {
    DzuhurRewrites();
    DzuhurLetters();
    DzuhurOnly("DDzuhur", "DZuhur");
  }

  /**
   * The chain is not idempotent: a second pass over the output "DZuhur"
   * rewrites it again, to "Zuhur".
   */
  lemma NotIdempotent()
    ensures Normalize("DDzuhur") == "DZuhur"
    ensures Normalize(Normalize("DDzuhur")) == "Zuhur"
  {
    DoubledDzuhurOnce();
    DzuhurRewrites();
    DzuhurLetters();
    DzuhurOnly("DZuhur", "Zuhur");
  }
}

/**
 The intern dashboard: a checklist of task keys across three internship tracks, the
 completion percentage shown on it, the certificate button that unlocks at 80%, and the
 human-readable label printed next to each task key.
 */
module Dashboard {
  import opened Strings

  /** The checklist as stored: task key to checked flag. A key never toggled is absent. */
  type Progress = map<string, bool>

  /** A key is ticked when it is present and true. For a task key that was never stored,
      JavaScript reads `undefined`, which is falsy. */
  predicate Done(p: Progress, key: string) {
    key in p && p[key]
  }

  /** `updateProgress(key)`: the key's flag becomes the negation of its current truthiness. */
  function Toggle(p: Progress, key: string): (r: Progress)
    ensures Done(r, key) <==> !Done(p, key)
    ensures forall k :: k != key ==> (Done(r, k) <==> Done(p, k))
    ensures r.Keys == p.Keys + {key}
  {
    p[key := !Done(p, key)]
  }

  /** The keys whose flag is true. */
  function TrueKeys(p: Progress): set<string> {
    set k | k in p && p[k]
  }

  /** `completedTasks`: how many stored flags are true. */
  function Completed(p: Progress): (n: nat)
    ensures n <= |p|
    ensures n == 0 <==> forall k | k in p :: !p[k]
  {
    TrueKeysFacts(p);
    |TrueKeys(p)|
  }

  lemma TrueKeysFacts(p: Progress)
    ensures |TrueKeys(p)| <= |p|
    ensures |TrueKeys(p)| == 0 <==> forall k | k in p :: !p[k]
  {
    var t := TrueKeys(p);
    SubsetCard(t, p.Keys);
    if |t| > 0 {
      var k :| k in t;
    } else {
      forall k | k in p ensures !p[k] {
        assert p[k] ==> k in t;
      }
    }
  }



  /** Ticking a box adds one to the completed count; unticking it takes one away. */
  lemma ToggleCount(p: Progress, key: string)
    ensures Completed(Toggle(p, key)) == if Done(p, key) then Completed(p) - 1 else Completed(p) + 1
  {
    var before, after := TrueKeys(p), TrueKeys(Toggle(p, key));
    ToggledKeys(p, key);
    if Done(p, key) {
      assert key in before;
    } else {
      assert key !in before;
    }
  }

  lemma ToggledKeys(p: Progress, key: string)
    ensures TrueKeys(Toggle(p, key)) == if Done(p, key) then TrueKeys(p) - {key} else TrueKeys(p) + {key}
  {
    var r := Toggle(p, key);
    forall k ensures k in TrueKeys(r) <==> Done(r, k) { }
    forall k ensures k in TrueKeys(p) <==> Done(p, k) { }
  }

  /** Toggling the same box twice gives back its state and the count; every other box is
      untouched throughout. */
  lemma ToggleTwice(p: Progress, key: string)
    ensures forall k :: Done(Toggle(Toggle(p, key), key), k) <==> Done(p, k)
    ensures Completed(Toggle(Toggle(p, key), key)) == Completed(p)
  {
    ToggleCount(p, key);
    ToggleCount(Toggle(p, key), key);
  }

  datatype Track = Track(name: string, tasks: seq<string>)

  /** The three internship tracks with four task keys each. */
  const Tracks: seq<Track> := [
    Track("AI & Generative AI", ["ai_python", "ai_ml_fundamentals", "ai_deep_learning", "ai_labs"]),
    Track("Cloud & DevOps", ["cloud_aws_azure", "cloud_cicd", "cloud_docker_k8s", "cloud_deployment"]),
    Track("Cybersecurity", ["cyber_fundamentals", "cyber_network_labs", "cyber_ethical_hacking", "cyber_soc_sim"])
  ]

  /** `totalTasks`: the running sum of the track task-list lengths, left to right. */
  function TotalTasks(tracks: seq<Track>): (n: nat)
    ensures n == 0 <==> forall i | 0 <= i < |tracks| :: tracks[i].tasks == []
  {
    if |tracks| == 0 then 0
    else
      var front := tracks[..|tracks| - 1];
      assert forall i | 0 <= i < |front| :: front[i] == tracks[i];
      TotalTasks(front) + |tracks[|tracks| - 1].tasks|
  }

  /** Every task key of every track, in display order. */
  function AllTasks(tracks: seq<Track>): seq<string> {
    if |tracks| == 0 then [] else AllTasks(tracks[..|tracks| - 1]) + tracks[|tracks| - 1].tasks
  }

  /** The total counts exactly the listed task keys. */
  lemma {:induction false} TotalIsTaskCount(tracks: seq<Track>)
    ensures TotalTasks(tracks) == |AllTasks(tracks)|
    decreases |tracks|
  {
    if |tracks| > 0 {
      TotalIsTaskCount(tracks[..|tracks| - 1]);
    }
  }

  /** The site's tracks hold twelve tasks. */
  lemma TotalIsTwelve()
    ensures TotalTasks(Tracks) == 12
  {
    var t := Tracks;
    assert t[..1][..0] == t[..0] && t[..2][..1] == t[..1] && t[..3][..2] == t[..2] && t[..3] == t;
    assert TotalTasks(t[..1]) == 4;
    assert TotalTasks(t[..2]) == 8;
  }

  function TaskKeys(): set<string> {
    set t | t in AllTasks(Tracks)
  }

  lemma {:induction false} DistinctAtMostLength(s: seq<string>)
    ensures |set x | x in s| <= |s|
    decreases |s|
  {
    if |s| > 0 {
      var front := s[..|s| - 1];
      DistinctAtMostLength(front);
      assert (set x | x in s) == (set x | x in front) + {s[|s| - 1]} by {
        forall x | x in s ensures x in front || x == s[|s| - 1] {
          var i :| 0 <= i < |s| && s[i] == x;
          if i < |s| - 1 {
            assert front[i] == x;
          }
        }
        assert s == front + [s[|s| - 1]];
      }
    }
  }

  /** `percent`: `Math.round(completed / total * 100)`, rounding halves upwards. The result
      is the integer r with r - 1/2 <= 100 * completed / total < r + 1/2. */
  function Percent(completed: nat, total: nat): (r: nat)
    requires total > 0
    ensures 2 * total * r <= 200 * completed + total < 2 * total * (r + 1)
  {
    (200 * completed + total) / (2 * total)
  }

  function Abs(x: int): nat {
    if x < 0 then -x else x
  }

  /** No other whole percentage is closer to the exact ratio: the distance from
      100 * completed / total to r is at most its distance to any integer q. */
  lemma PercentIsNearest(completed: nat, total: nat, q: int)
    requires total > 0
    ensures Abs(100 * completed - total * Percent(completed, total)) <= Abs(100 * completed - total * q)
  {
    var r := Percent(completed, total);
    var tr, tq := total * r, total * q;
    assert 2 * total * r == 2 * tr && 2 * total * (r + 1) == 2 * tr + 2 * total;
    if q < r {
      MulStep(total, q, r);
    } else if q > r {
      MulStep(total, r, q);
    }
    NearestLinear(100 * completed, total, tr, tq);
  }

  /** Between multiples of a positive step there is at least one whole step. */
  lemma MulStep(k: nat, x: int, y: int)
    requires x < y
    ensures k * x + k <= k * y
  {
    MulMonotone(k, x + 1, y);
    assert k * (x + 1) == k * x + k;
  }

  /** A point within half a step of `tr` is no farther from it than from any other multiple
      `tq` of the step. */
  lemma NearestLinear(a: int, total: int, tr: int, tq: int)
    requires total > 0 && 0 <= 2 * (a - tr) + total && 2 * (a - tr) < total
    requires tq == tr || tq + total <= tr || tq >= tr + total
    ensures Abs(a - tr) <= Abs(a - tq)
  {
  }

  /** With twelve tasks the exact ratio is never halfway between two percentages, so the
      rounding rule never decides the shown value. */
  lemma NoTie(completed: nat)
    ensures (100 * completed) % 12 in {0, 4, 8}
  {
    var m, k := completed / 3, completed % 3;
    assert completed == 3 * m + k;
    assert 100 * completed == 12 * (25 * m + 8 * k) + 4 * k;
    RemainderOfTwelve(100 * completed, 25 * m + 8 * k, 4 * k);
  }

  lemma RemainderOfTwelve(a: int, q: int, r: int)
    requires a == 12 * q + r && 0 <= r < 12
    ensures a % 12 == r
  {
  }

  lemma PercentMonotone(a: nat, b: nat, total: nat)
    requires total > 0 && a <= b
    ensures Percent(a, total) <= Percent(b, total)
  {
    var ra, rb := Percent(a, total), Percent(b, total);
    if ra > rb {
      MulMonotone(2 * total, rb + 1, ra);
      assert false;
    }
  }

  lemma MulMonotone(k: nat, x: int, y: int)
    requires x <= y
    ensures k * x <= k * y
  {
  }

  /** When every ticked key is a task key, at most all twelve are done and the percentage
      stays within 0..100. */
  lemma PercentBounded(p: Progress)
    requires TrueKeys(p) <= TaskKeys()
    ensures Completed(p) <= 12
    ensures Percent(Completed(p), TotalTasks(Tracks)) <= 100
  {
    CompletedAtMostTwelve(p);
    TotalIsTwelve();
    PercentMonotone(Completed(p), 12, 12);
  }

  lemma CompletedAtMostTwelve(p: Progress)
    requires TrueKeys(p) <= TaskKeys()
    ensures |TrueKeys(p)| <= 12
  {
    TaskKeysCount();
    SubsetCard(TrueKeys(p), TaskKeys());
  }

  lemma TaskKeysCount()
    ensures |TaskKeys()| <= 12
  {
    TotalIsTwelve();
    TotalIsTaskCount(Tracks);
    DistinctAtMostLength(AllTasks(Tracks));
  }

  lemma SubsetCard(a: set<string>, b: set<string>)
    requires a <= b
    ensures |a| <= |b|
  {
    assert b == a + (b - a);
  }

  /** Ticking only task keys keeps every ticked key a task key. */
  lemma ToggleKeepsTaskKeys(p: Progress, key: string)
    requires TrueKeys(p) <= TaskKeys() && key in TaskKeys()
    ensures TrueKeys(Toggle(p, key)) <= TaskKeys()
  {
  }

  datatype CertificateButton = CertificateButton(enabled: bool, caption: string)

  /** The certificate button: enabled with "Generate Certificate" from 80% on, disabled with
      "Certificate Locked" below. */
  function Certificate(percent: nat): (b: CertificateButton)
    ensures b.enabled <==> percent >= 80
    ensures b.enabled ==> b.caption == "Generate Certificate"
    ensures !b.enabled ==> b.caption == "Certificate Locked"
  {
    if percent >= 80 then CertificateButton(true, "Generate Certificate")
    else CertificateButton(false, "Certificate Locked")
  }

  /** With twelve tasks the 80% gate opens exactly at ten completed. */
  lemma CertificateNeedsTen(p: Progress)
    ensures Certificate(Percent(Completed(p), TotalTasks(Tracks))).enabled <==> Completed(p) >= 10
  {
    TotalIsTwelve();
    var c := Completed(p);
    if c >= 10 {
      PercentMonotone(10, c, 12);
      assert Percent(10, 12) == 83;
    } else {
      PercentMonotone(c, 9, 12);
      assert Percent(9, 12) == 75;
    }
  }

  /** ASCII upper-casing; other characters are left alone. */
  function Upper(c: char): char {
    if 'a' <= c <= 'z' then (c as int - 32) as char else c
  }

  /** `w.charAt(0).toUpperCase() + w.slice(1)`. */
  function UpperFirst(w: string): (r: string)
    ensures |r| == |w|
    ensures |w| > 0 ==> r[0] == Upper(w[0]) && r[1..] == w[1..]
  {
    if |w| == 0 then "" else [Upper(w[0])] + w[1..]
  }

  function Capitalize(words: seq<string>): (r: seq<string>)
    ensures |r| == |words|
    ensures forall i :: 0 <= i < |words| ==> r[i] == UpperFirst(words[i])
  {
    if |words| == 0 then [] else [UpperFirst(words[0])] + Capitalize(words[1..])
  }

  /** The task label: the key split on '_', the first piece dropped, each remaining piece
      capitalised, joined with single spaces. */
  function Label(task: string): (r: string)
    ensures '_' in task ==> r == Respell(After(task, '_'), true)
    ensures '_' !in task ==> r == ""
  {
    LabelRespells(task);
    Join(Capitalize(Split(task, '_')[1..]), ' ')
  }

  /** A character-by-character reading of the label: the text after the first '_', with
      each later '_' turned into a space and the first character of every word upper-cased. */
  function Respell(s: string, atWordStart: bool): (r: string)
    ensures |r| == |s|
    ensures '_' !in r
    decreases |s|
  {
    if |s| == 0 then ""
    else if s[0] == '_' then " " + Respell(s[1..], true)
    else [if atWordStart then Upper(s[0]) else s[0]] + Respell(s[1..], false)
  }

  lemma JoinFirstChar(c: char, x: string, t: seq<string>)
    ensures Join([[c] + x] + t, ' ') == [c] + Join([x] + t, ' ')
  {
    JoinCons([c] + x, t, ' ');
    JoinCons(x, t, ' ');
  }

  lemma {:induction false} SegmentsRespell(s: string, atWordStart: bool)
    ensures var parts := Split(s, '_');
            var first := if atWordStart then UpperFirst(parts[0]) else parts[0];
            Join([first] + Capitalize(parts[1..]), ' ') == Respell(s, atWordStart)
    decreases |s|
  {
    var parts := Split(s, '_');
    if |s| > 0 {
      var rest := Split(s[1..], '_');
      SegmentsRespell(s[1..], s[0] == '_');
      assert Capitalize(rest) == [UpperFirst(rest[0])] + Capitalize(rest[1..]);
      if s[0] == '_' {
        assert parts == [""] + rest;
        assert parts[1..] == rest;
        var first := if atWordStart then UpperFirst("") else "";
        assert first == "";
        JoinCons(first, Capitalize(rest), ' ');
        assert Join([UpperFirst(rest[0])] + Capitalize(rest[1..]), ' ') == Respell(s[1..], true);
      } else {
        var c := if atWordStart then Upper(s[0]) else s[0];
        assert parts[0] == [s[0]] + rest[0] && parts[1..] == rest[1..];
        var first := if atWordStart then UpperFirst(parts[0]) else parts[0];
        assert first == [c] + rest[0];
        JoinFirstChar(c, rest[0], Capitalize(rest[1..]));
      }
    }
  }

  /** The label is the respelled text after the first '_', and empty for a key without one. */
  lemma LabelRespells(task: string)
    ensures var shown := Join(Capitalize(Split(task, '_')[1..]), ' ');
            && ('_' in task ==> shown == Respell(After(task, '_'), true))
            && ('_' !in task ==> shown == "")
  {
    if '_' in task {
      var rest := After(task, '_');
      SplitTail(task, '_');
      SegmentsRespell(rest, true);
      var parts := Split(rest, '_');
      assert Capitalize(parts) == [UpperFirst(parts[0])] + Capitalize(parts[1..]);
    } else {
      SplitWithoutSeparator(task, '_');
      assert Split(task, '_')[1..] == [];
    }
  }

  /** So a label is as long as the key after its first '_' and never holds an '_'. */
  lemma LabelShape(task: string)
    requires '_' in task
    ensures |Label(task)| == |After(task, '_')|
    ensures '_' !in Label(task)
  {
    LabelRespells(task);
  }

  /** "ai_ml_fundamentals" is shown as "Ml Fundamentals". */
  lemma LabelExample(task: string)
    requires task == "ai_ml_fundamentals"
    ensures Label(task) == "Ml Fundamentals"
  {
    var track, rest := "ai", "ml_fundamentals";
    assert task == track + (['_'] + rest);
    assert '_' !in track;
    AfterFirst(track, rest, '_');
    LabelRespells(task);
    RespellExample(rest);
  }

  lemma RespellExample(s: string)
    requires s == "ml_fundamentals"
    ensures Respell(s, true) == "Ml Fundamentals"
  {
    var a, b := "ml", "fundamentals";
    assert s == a + "_" + b;
    RespellTwoWords(a, b);
    UpperFirstMl(a);
    UpperFirstFundamentals(b);
    SpacedPair("Ml", "Fundamentals", "Ml Fundamentals");
  }

  lemma SpacedPair(x: string, y: string, xy: string)
    requires x == "Ml" && y == "Fundamentals" && xy == "Ml Fundamentals"
    ensures x + " " + y == xy
  {
    assert xy == x + [' '] + y;
  }

  lemma UpperFirstMl(a: string)
    requires a == "ml"
    ensures UpperFirst(a) == "Ml"
  {
    UpperFirstCons('m', "l");
    assert a == ['m'] + "l";
  }

  lemma UpperFirstFundamentals(b: string)
    requires b == "fundamentals"
    ensures UpperFirst(b) == "Fundamentals"
  {
    var tail := "undamentals";
    assert b == ['f'] + tail;
    UpperFirstCons('f', tail);
  }

  lemma UpperFirstCons(c: char, w: string)
    ensures UpperFirst([c] + w) == [Upper(c)] + w
  {
    assert ([c] + w)[1..] == w;
  }

  /** Two words joined by '_' come out capitalised and separated by a space. */
  lemma RespellTwoWords(a: string, b: string)
    requires '_' !in a && '_' !in b
    ensures Respell(a + "_" + b, true) == UpperFirst(a) + " " + UpperFirst(b)
  {
    var ua, ub := UpperFirst(a), UpperFirst(b);
    var rest := "_" + b;
    AssociateWords(a, b);
    RespellWord(a, rest, true);
    RespellRest(b, |a| == 0);
    assert ua + (" " + ub) == ua + " " + ub;
  }

  lemma AssociateWords(a: string, b: string)
    ensures a + "_" + b == a + ("_" + b)
  {
  }

  /** What follows the first word: a space, then the second word capitalised. */
  lemma RespellRest(b: string, atWordStart: bool)
    requires '_' !in b
    ensures Respell("_" + b, atWordStart) == " " + UpperFirst(b)
  {
    RespellUnderscore(b, atWordStart);
    assert b + "" == b;
    RespellWord(b, "", true);
    assert Respell("", false) == "";
  }

  /** Inside a word only its first character can change. */
  lemma {:induction false} RespellWord(w: string, rest: string, atWordStart: bool)
    requires '_' !in w
    ensures Respell(w + rest, atWordStart) ==
            (if atWordStart then UpperFirst(w) else w) + Respell(rest, atWordStart && |w| == 0)
    decreases |w|
  {
    if |w| > 0 {
      assert (w + rest)[0] == w[0];
      assert (w + rest)[1..] == w[1..] + rest;
      RespellWord(w[1..], rest, false);
      assert w == [w[0]] + w[1..];
    } else {
      assert w + rest == rest;
    }
  }

  lemma RespellUnderscore(rest: string, atWordStart: bool)
    ensures Respell("_" + rest, atWordStart) == " " + Respell(rest, true)
  {
    assert ("_" + rest)[1..] == rest;
  }
}

/**
 * The checkpoint station's scan-report-feedback loop
 * (Wristband_Station/src/main.cpp): while WiFi is connected it shows
 * Yellow, reads a tag, shows Blue, reports the tag's hex string to the rally
 * server with one POST, shows Green for status 200 and Red otherwise, halts
 * the card session and shows Yellow again; when WiFi is down it shows Purple.
 *
 * The reader, the HTTP client, the LED strip and the WiFi status are
 * capabilities with scripted results; every call that is visible outside
 * the station is appended to a trace of events.
 */
module Station {
  import opened Wrappers
  import opened HexCodec

  /** NUM_LEDS: the strip has one LED. */
  const NumLeds: nat := 1

  /** The one status code the station treats as success. */
  const HttpOk: int := 200

  /** HTTPClient's code for a request that could not be sent (HTTPC_ERROR_CONNECTION_REFUSED). */
  const ConnectionRefused: int := -1

  /** The CRGB colours the station shows. */
  datatype Color = Yellow | Blue | Green | Red | Purple

  /** A call the station makes on one of its capabilities. */
  datatype Event =
    | Show(color: Color)              // leds[0] = color; FastLED.show()
    | CardPresentPoll                 // mfrc522.PICC_IsNewCardPresent()
    | ReadCardSerial                  // mfrc522.PICC_ReadCardSerial()
    | Post(url: string, body: string) // http.begin(client, url); http.POST(body)
    | HaltCard                        // mfrc522.PICC_HaltA()

  function Drop1<T>(s: seq<T>): seq<T>
  {
    if s == [] then [] else s[1..]
  }

  /**
   * The scripted results of the capabilities, each consumed front to back:
   * successive WiFi samples (true = WL_CONNECTED), successive results of
   * PICC_ReadCardSerial (the UID read, or None when it fails) and successive
   * HTTP codes of POST. An exhausted script reads as link down, no card and a
   * refused connection.
   */
  datatype Script = Script(link: seq<bool>, cards: seq<Option<seq<byte>>>, codes: seq<int>)
  {
    function LinkUp(): bool { link != [] && link[0] }
    function NextCard(): Option<seq<byte>> { if cards == [] then None else cards[0] }
    function NextCode(): int { if codes == [] then ConnectionRefused else codes[0] }
    function AfterLink(): Script { this.(link := Drop1(link)) }
    function AfterCard(): Script { this.(cards := Drop1(cards)) }
    function AfterCode(): Script { this.(codes := Drop1(codes)) }
  }

  lemma AppendAssoc<T>(a: seq<T>, b: seq<T>, c: seq<T>)
    ensures a + (b + c) == (a + b) + c
  {
  }

  /**
   * rest_server + "/flag/" + tag_id + flag_url: the tag id sits at a fixed
   * position, between "/flag/" and the suffix.
   */
  function FlagUrl(restServer: string, tagId: string, flagSuffix: string): (url: string)
    ensures |url| == |restServer| + 6 + |tagId| + |flagSuffix|
    ensures url[..|restServer| + 6] == restServer + "/flag/"
    ensures url[|restServer| + 6..|restServer| + 6 + |tagId|] == tagId
    ensures url[|restServer| + 6 + |tagId|..] == flagSuffix
  {
    restServer + "/flag/" + tagId + flagSuffix
  }

  /** Different tag ids are reported to different URLs. */
  lemma FlagUrlInjective(restServer: string, a: string, b: string, flagSuffix: string)
    requires FlagUrl(restServer, a, flagSuffix) == FlagUrl(restServer, b, flagSuffix)
    ensures a == b
  {
  }

  /** Distinct UIDs of at most 9 bytes are reported to distinct URLs. */
  lemma DistinctUidsDistinctUrls(restServer: string, flagSuffix: string, u: seq<byte>, v: seq<byte>)
    requires |u| <= MaxUidBytes && |v| <= MaxUidBytes && u != v
    ensures FlagUrl(restServer, Encoded(u).value, flagSuffix) != FlagUrl(restServer, Encoded(v).value, flagSuffix)
  {
    if FlagUrl(restServer, Encoded(u).value, flagSuffix) == FlagUrl(restServer, Encoded(v).value, flagSuffix) {
      FlagUrlInjective(restServer, Encoded(u).value, Encoded(v).value, flagSuffix);
      EncodedInjective(u, v);
    }
  }

  /** The feedback colour for a report's status code. */
  function Feedback(code: int): (c: Color)
    ensures c == Green <==> code == HttpOk
    ensures c == Red <==> code != HttpOk
  {
    if code == HttpOk then Green else Red
  }

  /**
   * What the station does with a tag string once the card is read (scripts
   * taken after the read): one POST of an empty body to the tag's URL and the
   * feedback colour for the code it returns, or nothing when the UID was
   * rejected. Only a POST consumes a code; link and reader are untouched.
   */
  function Report(tagId: Option<string>, s: Script, restServer: string, flagSuffix: string): (r: (seq<Event>, Script))
    ensures ReportLike(r.0)
    ensures r.0 == [] <==> tagId.None?
    ensures tagId.Some? ==>
      r.0[0] == Post(FlagUrl(restServer, tagId.value, flagSuffix), "") && r.0[1] == Show(Feedback(s.NextCode()))
    ensures r.1.link == s.link && r.1.cards == s.cards
    ensures tagId.None? ==> r.1 == s
  {
    match tagId
    case None => ([], s)
    case Some(t) => ([Post(FlagUrl(restServer, t, flagSuffix), ""), Show(Feedback(s.NextCode()))], s.AfterCode())
  }

  /** A pass through the while-body in which a card was read, around what it reported. */
  function CycleOf(report: seq<Event>): seq<Event>
  {
    [Show(Yellow), CardPresentPoll, ReadCardSerial, Show(Blue)] + report + [HaltCard, Show(Yellow)]
  }

  /** The events of one pass through the while-body in which a card was read. */
  function Cycle(uid: seq<byte>, s: Script, restServer: string, flagSuffix: string): seq<Event>
  {
    CycleOf(Report(Encoded(uid), s.AfterCard(), restServer, flagSuffix).0)
  }

  /**
   * The events of loop() from the point where a WiFi sample reading `up` has
   * just been taken, and the scripts left over when loop() returns.
   */
  function Continue(up: bool, s: Script, restServer: string, flagSuffix: string): (r: (seq<Event>, Script))
    ensures r.0 != [] && r.0[|r.0| - 1] in {Show(Purple), ReadCardSerial}
    ensures up ==> r.0[0] == Show(Yellow)
    ensures !up ==> r.0 == [Show(Purple)]
    ensures |r.1.link| <= |s.link| && |r.1.cards| <= |s.cards| && |r.1.codes| <= |s.codes|
    decreases |s.link|, if up then 1 else 0
  {
    if !up then ([Show(Purple)], s)
    else
      match s.NextCard()
      case None => ([Show(Yellow), CardPresentPoll, ReadCardSerial], s.AfterCard())
      case Some(uid) =>
        var next := Report(Encoded(uid), s.AfterCard(), restServer, flagSuffix).1;
        assert next.link == s.link;
        var rest := Continue(next.LinkUp(), next.AfterLink(), restServer, flagSuffix);
        (Cycle(uid, s, restServer, flagSuffix) + rest.0, rest.1)
  }

  /**
   * The events of one call of loop() and the scripts it leaves: it opens with
   * Yellow when connected and Purple when not, and ends with Purple (link
   * lost) or with a failed read.
   */
  function LoopSpec(s: Script, restServer: string, flagSuffix: string): (r: (seq<Event>, Script))
    ensures r.0 != [] && r.0[|r.0| - 1] in {Show(Purple), ReadCardSerial}
    ensures r.0[0] == if s.LinkUp() then Show(Yellow) else Show(Purple)
    ensures |r.1.link| < |s.link| || s.link == []
  {
    Continue(s.LinkUp(), s.AfterLink(), restServer, flagSuffix)
  }

  /** The kinds of event the trace lemmas count. */
  datatype Kind = Halts | Detections | Reports

  /** Halts are PICC_HaltA calls, detections the Blue shown once a card is read, reports the POSTs. */
  predicate IsA(k: Kind, e: Event)
  {
    match k
    case Halts => e.HaltCard?
    case Detections => e == Show(Blue)
    case Reports => e.Post?
  }

  /** How many events of ev are of kind k. */
  function Occurrences(ev: seq<Event>, k: Kind): (n: nat)
    ensures n <= |ev|
  {
    if ev == [] then 0 else (if IsA(k, ev[0]) then 1 else 0) + Occurrences(ev[1..], k)
  }

  lemma {:induction false} OccurrencesAppend(a: seq<Event>, b: seq<Event>, k: Kind)
    ensures Occurrences(a + b, k) == Occurrences(a, k) + Occurrences(b, k)
    decreases |a|
  {
    if a == [] {
      assert a + b == b;
    } else {
      assert (a + b)[1..] == a[1..] + b;
      OccurrencesAppend(a[1..], b, k);
    }
  }

  /** A call that asks the reader about a card: a presence poll or a serial read. */
  predicate AsksReader(e: Event)
  {
    e.CardPresentPoll? || e.ReadCardSerial?
  }

  /**
   * Session hygiene: whenever the reader is asked about a card, every card
   * detected before (the LED turned Blue) has had its session halted.
   */
  ghost predicate HaltedBeforeNextRead(ev: seq<Event>)
  {
    forall j :: 0 <= j < |ev| && AsksReader(ev[j]) ==>
      Occurrences(ev[..j], Halts) == Occurrences(ev[..j], Detections)
  }

  /** The count of a kind over one event and what follows it. */
  lemma OccurrencesCons(e: Event, rest: seq<Event>, k: Kind)
    ensures Occurrences([e] + rest, k) == (if IsA(k, e) then 1 else 0) + Occurrences(rest, k)
  {
    assert ([e] + rest)[1..] == rest;
  }

  lemma CycleOfReport(post: Event, feedback: Event)
    ensures CycleOf([post, feedback])
         == [Show(Yellow), CardPresentPoll, ReadCardSerial, Show(Blue), post, feedback, HaltCard, Show(Yellow)]
  {
  }

  /** A report part: nothing, or a POST followed by Green or Red. */
  ghost predicate ReportLike(r: seq<Event>)
  {
    r == [] || (|r| == 2 && r[0].Post? && r[1].Show? && r[1].color in {Green, Red})
  }

  /** Counts over a report part and over what follows it in a pass. */
  lemma {:induction false} ReportTailCounts(r: seq<Event>, k: Kind)
    requires ReportLike(r)
    ensures Occurrences(r, k) == if k == Reports && r != [] then 1 else 0
    ensures Occurrences(r + [HaltCard, Show(Yellow)], k) == Occurrences(r, k) + (if k == Halts then 1 else 0)
  {
    OccurrencesAppend(r, [HaltCard, Show(Yellow)], k);
    OccurrencesCons(HaltCard, [Show(Yellow)], k);
    OccurrencesCons(Show(Yellow), [], k);
    assert [HaltCard, Show(Yellow)] == [HaltCard] + [Show(Yellow)];
    assert [Show(Yellow)] == [Show(Yellow)] + [];
    if r != [] {
      OccurrencesCons(r[0], [r[1]], k);
      OccurrencesCons(r[1], [], k);
      assert r == [r[0]] + [r[1]] && [r[1]] == [r[1]] + [];
    }
  }

  /** Counts over the four events that open a pass with a card. */
  lemma {:induction false} OpeningCounts(tail: seq<Event>, k: Kind)
    ensures Occurrences([Show(Yellow), CardPresentPoll, ReadCardSerial, Show(Blue)] + tail, k)
         == Occurrences(tail, k) + (if k == Detections then 1 else 0)
  {
    assert [Show(Yellow), CardPresentPoll, ReadCardSerial, Show(Blue)] + tail
        == [Show(Yellow)] + ([CardPresentPoll] + ([ReadCardSerial] + ([Show(Blue)] + tail)));
    OccurrencesCons(Show(Blue), tail, k);
    OccurrencesCons(ReadCardSerial, [Show(Blue)] + tail, k);
    OccurrencesCons(CardPresentPoll, [ReadCardSerial] + ([Show(Blue)] + tail), k);
    OccurrencesCons(Show(Yellow), [CardPresentPoll] + ([ReadCardSerial] + ([Show(Blue)] + tail)), k);
  }

  /**
   * One pass with a card: one detection, one halt, at most one report, and the
   * reader asked only by the poll at index 1 and the read at index 2.
   */
  lemma CycleCounts(r: seq<Event>)
    requires ReportLike(r)
    ensures var c := CycleOf(r);
      && Occurrences(c, Halts) == 1 && Occurrences(c, Detections) == 1 && Occurrences(c, Reports) <= 1
      && 2 < |c| && c[..2] == [Show(Yellow), CardPresentPoll] && c[2] == ReadCardSerial
      && forall j :: 0 <= j < |c| && AsksReader(c[j]) ==> j == 1 || j == 2
  {
    var tail := r + [HaltCard, Show(Yellow)];
    assert CycleOf(r) == [Show(Yellow), CardPresentPoll, ReadCardSerial, Show(Blue)] + tail;
    ReportTailCounts(r, Halts);
    ReportTailCounts(r, Detections);
    ReportTailCounts(r, Reports);
    OpeningCounts(tail, Halts);
    OpeningCounts(tail, Detections);
    OpeningCounts(tail, Reports);
  }

  /** Prefixing a balanced pass keeps the session-hygiene property of what follows. */
  lemma HygieneAppend(c: seq<Event>, rest: seq<Event>)
    requires Occurrences(c, Halts) == Occurrences(c, Detections)
    requires HaltedBeforeNextRead(c)
    requires HaltedBeforeNextRead(rest)
    ensures HaltedBeforeNextRead(c + rest)
  {
    var ev := c + rest;
    forall j | 0 <= j < |ev| && AsksReader(ev[j])
      ensures Occurrences(ev[..j], Halts) == Occurrences(ev[..j], Detections)
    {
      if j < |c| {
        assert ev[..j] == c[..j] && c[j] == ev[j];
      } else {
        var k := j - |c|;
        assert ev[..j] == c + rest[..k] && rest[k] == ev[j];
        OccurrencesAppend(c, rest[..k], Halts);
        OccurrencesAppend(c, rest[..k], Detections);
      }
    }
  }

  /** Two ways of writing the same sequence end in the same element. */
  lemma SameLast(a: seq<Event>, g: seq<Event>, b: seq<Event>, t: seq<Event>)
    requires a + g == b + t && g != [] && t != []
    ensures g[|g| - 1] == t[|t| - 1]
  {
    assert (a + g)[|a + g| - 1] == g[|g| - 1];
  }

  /** The events a pass logs, in the order the loop body appends them, make up CycleOf. */
  lemma OpenedCycle(before: seq<Event>, r: seq<Event>)
    ensures before + [Show(Yellow), CardPresentPoll, ReadCardSerial] + [Show(Blue)] + r + [HaltCard, Show(Yellow)]
         == before + CycleOf(r)
  {
  }

  /** A pass with a card in front of a well-behaved run leaves it well-behaved. */
  lemma CyclePrefixKeeps(r: seq<Event>, rest: seq<Event>)
    requires ReportLike(r)
    requires HaltedBeforeNextRead(rest)
    requires Occurrences(rest, Halts) == Occurrences(rest, Detections)
    requires Occurrences(rest, Reports) <= Occurrences(rest, Detections)
    ensures var ev := CycleOf(r) + rest;
      && HaltedBeforeNextRead(ev)
      && Occurrences(ev, Halts) == Occurrences(ev, Detections)
      && Occurrences(ev, Reports) <= Occurrences(ev, Detections)
  {
    var c := CycleOf(r);
    CycleCounts(r);
    OccurrencesAppend(c, rest, Halts);
    OccurrencesAppend(c, rest, Detections);
    OccurrencesAppend(c, rest, Reports);
    assert c[..1] == [Show(Yellow)] && c[..1][1..] == [];
    assert c[..2][1..][1..] == [];
    assert HaltedBeforeNextRead(c);
    HygieneAppend(c, rest);
  }

  /** How Continue unfolds for a connected pass that reads a card. */
  lemma ContinueWithCard(s: Script, uid: seq<byte>, restServer: string, flagSuffix: string)
    requires s.NextCard() == Some(uid)
    ensures var next := Report(Encoded(uid), s.AfterCard(), restServer, flagSuffix).1;
      var rest := Continue(next.LinkUp(), next.AfterLink(), restServer, flagSuffix);
      Continue(true, s, restServer, flagSuffix) == (Cycle(uid, s, restServer, flagSuffix) + rest.0, rest.1)
  {
  }

  /**
   * Over any run of loop(): the reader is never asked for a card while a
   * detected card is still unhalted, every detected card is halted exactly
   * once, and there is at most one report per detected card.
   */
  lemma {:induction false} LoopSessionHygiene(up: bool, s: Script, restServer: string, flagSuffix: string)
    ensures var ev := Continue(up, s, restServer, flagSuffix).0;
      && HaltedBeforeNextRead(ev)
      && Occurrences(ev, Halts) == Occurrences(ev, Detections)
      && Occurrences(ev, Reports) <= Occurrences(ev, Detections)
    decreases |s.link|, if up then 1 else 0
  {
    var ev := Continue(up, s, restServer, flagSuffix).0;
    if !up {
      assert ev == [Show(Purple)];
    } else if s.NextCard().None? {
      assert ev == [Show(Yellow), CardPresentPoll, ReadCardSerial];
      assert ev[..1] == [Show(Yellow)] && ev[..1][1..] == [];
      assert ev[..2] == [Show(Yellow), CardPresentPoll];
      assert ev[1..][1..][1..] == [];
    } else {
      var uid := s.NextCard().value;
      var next := Report(Encoded(uid), s.AfterCard(), restServer, flagSuffix).1;
      var c := Cycle(uid, s, restServer, flagSuffix);
      var rest := Continue(next.LinkUp(), next.AfterLink(), restServer, flagSuffix).0;
      ContinueWithCard(s, uid, restServer, flagSuffix);
      assert ev == c + rest;
      LoopSessionHygiene(next.LinkUp(), next.AfterLink(), restServer, flagSuffix);
      var r := Report(Encoded(uid), s.AfterCard(), restServer, flagSuffix).0;
      assert c == CycleOf(r);
      CyclePrefixKeeps(r, rest);
    }
  }

  /**
   * The events of n consecutive calls of loop(), as the Arduino runtime makes
   * them, and the scripts left after the last one.
   */
  function Calls(n: nat, s: Script, restServer: string, flagSuffix: string): (r: (seq<Event>, Script))
    ensures n == 0 <==> r.0 == []
    ensures |r.1.link| <= |s.link|
  {
    if n == 0 then ([], s)
    else
      var first := LoopSpec(s, restServer, flagSuffix);
      var rest := Calls(n - 1, first.1, restServer, flagSuffix);
      (first.0 + rest.0, rest.1)
  }

  /**
   * Session hygiene holds across calls of loop() too: however many calls are
   * made, the reader is never asked for a card while a detected card is
   * unhalted, and there is at most one report per detected card.
   */
  lemma {:induction false} CallsSessionHygiene(n: nat, s: Script, restServer: string, flagSuffix: string)
    ensures var ev := Calls(n, s, restServer, flagSuffix).0;
      && HaltedBeforeNextRead(ev)
      && Occurrences(ev, Halts) == Occurrences(ev, Detections)
      && Occurrences(ev, Reports) <= Occurrences(ev, Detections)
  {
    if n > 0 {
      var first := LoopSpec(s, restServer, flagSuffix);
      var rest := Calls(n - 1, first.1, restServer, flagSuffix).0;
      LoopSessionHygiene(s.LinkUp(), s.AfterLink(), restServer, flagSuffix);
      CallsSessionHygiene(n - 1, first.1, restServer, flagSuffix);
      HygieneAppend(first.0, rest);
      OccurrencesAppend(first.0, rest, Halts);
      OccurrencesAppend(first.0, rest, Detections);
      OccurrencesAppend(first.0, rest, Reports);
    }
  }

  /** While the link is down, loop() touches neither reader nor transport: it only shows Purple. */
  lemma LinkDownOnlyPurple(s: Script, restServer: string, flagSuffix: string)
    requires !s.LinkUp()
    ensures LoopSpec(s, restServer, flagSuffix) == ([Show(Purple)], s.AfterLink())
  {
  }

  /**
   * A failed PICC_ReadCardSerial ends loop() at once: no encoding, no report,
   * no halt, no Purple, and no HTTP code consumed.
   */
  lemma ReadFailureReturns(s: Script, restServer: string, flagSuffix: string)
    requires s.LinkUp() && s.AfterLink().NextCard().None?
    ensures LoopSpec(s, restServer, flagSuffix)
         == ([Show(Yellow), CardPresentPoll, ReadCardSerial], s.AfterLink().AfterCard())
  {
  }

  /**
   * A connected pass that reads a UID of at most 9 bytes shows Yellow, Blue, Green or
   * Red, Yellow; posts once, with an empty body, to the URL of the UID's hex
   * string; and halts the card after the feedback and before anything else.
   */
  lemma ReportedCycle(s: Script, uid: seq<byte>, restServer: string, flagSuffix: string)
    requires s.LinkUp() && s.AfterLink().NextCard() == Some(uid) && |uid| <= MaxUidBytes
    ensures var ev := LoopSpec(s, restServer, flagSuffix).0;
      8 <= |ev|
      && ev[..8] == [Show(Yellow), CardPresentPoll, ReadCardSerial, Show(Blue),
                     Post(FlagUrl(restServer, Encoded(uid).value, flagSuffix), ""), Show(Feedback(s.NextCode())),
                     HaltCard, Show(Yellow)]
  {
    var t := s.AfterLink();
    var post, feedback := Post(FlagUrl(restServer, Encoded(uid).value, flagSuffix), ""), Show(Feedback(s.NextCode()));
    var r := Report(Encoded(uid), t.AfterCard(), restServer, flagSuffix).0;
    assert r == [post, feedback] by {
      assert t.AfterCard().NextCode() == s.NextCode();
    }
    var c := CycleOf(r);
    CycleOfReport(post, feedback);
    ContinueWithCard(t, uid, restServer, flagSuffix);
    var ev := LoopSpec(s, restServer, flagSuffix).0;
    assert ev == c + Continue(true, t, restServer, flagSuffix).0[|c|..];
  }

  /** A UID longer than the buffer allows is never reported: the card is only halted. */
  lemma OversizedUidNotReported(s: Script, uid: seq<byte>, restServer: string, flagSuffix: string)
    requires s.LinkUp() && s.AfterLink().NextCard() == Some(uid) && |uid| > MaxUidBytes
    ensures var ev := LoopSpec(s, restServer, flagSuffix).0;
      6 <= |ev|
      && ev[..6] == [Show(Yellow), CardPresentPoll, ReadCardSerial, Show(Blue), HaltCard, Show(Yellow)]
  {
    var t := s.AfterLink();
    ContinueWithCard(t, uid, restServer, flagSuffix);
    assert Cycle(uid, t, restServer, flagSuffix)
        == [Show(Yellow), CardPresentPoll, ReadCardSerial, Show(Blue), HaltCard, Show(Yellow)];
  }

  /**
   * Connected once, a card 01 02 03 04, status 200, then the link drops:
   * one POST to .../flag/01020304..., Green, halt, and Purple at the end.
   */
  lemma ExampleSuccessfulScan(restServer: string, flagSuffix: string)
    ensures LoopSpec(Script([true], [Some([1, 2, 3, 4])], [200]), restServer, flagSuffix).0
         == [Show(Yellow), CardPresentPoll, ReadCardSerial, Show(Blue),
             Post(restServer + "/flag/01020304" + flagSuffix, ""), Show(Green),
             HaltCard, Show(Yellow), Show(Purple)]
  {
    var uid: seq<byte> := [1, 2, 3, 4];
    assert uid[..3] == [1, 2, 3] && uid[..2] == [1, 2] && uid[..1] == [1];
    assert uid[..3][..2] == uid[..2] && uid[..2][..1] == uid[..1] && uid[..1][..0] == [];
    assert ByteHex(1) == "01" && ByteHex(2) == "02" && ByteHex(3) == "03" && ByteHex(4) == "04";
    assert Hex(uid[..2]) == "0102";
    assert Hex(uid[..3]) == "010203";
    assert Hex(uid) == "01020304";
    assert restServer + "/flag/" + "01020304" + flagSuffix == restServer + "/flag/01020304" + flagSuffix;
  }

  /** A station with its capabilities and the trace of the calls made on them. */
  class Checkpoint {
    /** rest_server and flag_url from the provisioning header. */
    const restServer: string
    const flagUrl: string
    /** CRGB leds[NUM_LEDS] */
    const leds: array<Color>
    var script: Script
    var trace: seq<Event>

    ghost predicate Valid()
      reads this
    {
      leds.Length == NumLeds
    }

    constructor (restServer: string, flagUrl: string, script: Script)
      ensures Valid() && fresh(leds)
      ensures this.restServer == restServer && this.flagUrl == flagUrl
      ensures this.script == script && trace == []
    {
      this.restServer := restServer;
      this.flagUrl := flagUrl;
      this.script := script;
      trace := [];
      leds := new Color[NumLeds](_ => Yellow);
    }

    /** leds[0] = c; FastLED.show(); */
    method ShowColor(c: Color)
      requires Valid()
      modifies leds, this`trace
      ensures leds[0] == c
      ensures trace == old(trace) + [Show(c)]
    {
      leds[0] := c;
      trace := trace + [Show(c)];
    }

    /** WiFi.status() == WL_CONNECTED */
    method WiFiConnected() returns (up: bool)
      modifies this`script
      ensures up == old(script).LinkUp() && script == old(script).AfterLink()
    {
      up := script.LinkUp();
      script := script.AfterLink();
    }

    /** mfrc522.PICC_IsNewCardPresent(): reports whether the next read will find a card. */
    method PiccIsNewCardPresent() returns (present: bool)
      modifies this`trace
      ensures present == script.NextCard().Some?
      ensures trace == old(trace) + [CardPresentPoll]
    {
      present := script.NextCard().Some?;
      trace := trace + [CardPresentPoll];
    }

    /** mfrc522.PICC_ReadCardSerial(), with mfrc522.uid as its result. */
    method PiccReadCardSerial() returns (uid: Option<seq<byte>>)
      modifies this`script, this`trace
      ensures uid == old(script).NextCard() && script == old(script).AfterCard()
      ensures trace == old(trace) + [ReadCardSerial]
    {
      uid := script.NextCard();
      script := script.AfterCard();
      trace := trace + [ReadCardSerial];
    }

    /** mfrc522.PICC_HaltA() */
    method PiccHaltA()
      modifies this`trace
      ensures trace == old(trace) + [HaltCard]
    {
      trace := trace + [HaltCard];
    }

    /**
     * sendTagNumber: one POST with an empty body to the flag URL of the tag;
     * the transport's code is returned unchanged.
     */
    method SendTagNumber(tagId: string) returns (code: int)
      modifies this`script, this`trace
      ensures code == old(script).NextCode() && script == old(script).AfterCode()
      ensures trace == old(trace) + [Post(FlagUrl(restServer, tagId, flagUrl), "")]
    {
      var connection := FlagUrl(restServer, tagId, flagUrl);
      code := script.NextCode();
      script := script.AfterCode();
      trace := trace + [Post(connection, "")];
    }

    /**
     * The head of a pass through loop()'s while-body: Yellow, poll the reader
     * (its answer gates nothing), read the card's serial.
     */
    method Scan() returns (card: Option<seq<byte>>)
      requires Valid()
      modifies leds, this`script, this`trace
      ensures card == old(script).NextCard() && script == old(script).AfterCard()
      ensures trace == old(trace) + [Show(Yellow), CardPresentPoll, ReadCardSerial]
      ensures leds[0] == Yellow
    {
      ShowColor(Yellow);
      var present := PiccIsNewCardPresent();
      card := PiccReadCardSerial();
    }

    /**
     * The rest of a pass through loop()'s while-body once a card has been
     * read: Blue, encode, report, Green or Red, halt the card, Yellow.
     */
    method HandleCard(uid: seq<byte>)
      requires Valid()
      modifies leds, this`script, this`trace
      ensures var report := Report(Encoded(uid), old(script), restServer, flagUrl);
        && trace == old(trace) + [Show(Blue)] + report.0 + [HaltCard, Show(Yellow)]
        && script == report.1
      ensures leds[0] == Yellow
    {
      ShowColor(Blue);
      var tagId := ConvertUidToString(uid);
      if tagId.Some? {
        var ret := SendTagNumber(tagId.value);
        if ret == HttpOk {
          ShowColor(Green);
        } else {
          ShowColor(Red);
        }
      }
      PiccHaltA();
      ShowColor(Yellow);
    }

    /** One call of loop(). */
    method Loop()
      requires Valid()
      modifies this, leds
      ensures Valid()
      ensures trace == old(trace) + LoopSpec(old(script), restServer, flagUrl).0
      ensures script == LoopSpec(old(script), restServer, flagUrl).1
      ensures var ev := LoopSpec(old(script), restServer, flagUrl).0;
        leds[0] == if ev[|ev| - 1] == Show(Purple) then Purple else Yellow
    {
      ghost var goal := LoopSpec(script, restServer, flagUrl);
      var up := WiFiConnected();
      while up
        invariant Valid()
        invariant old(trace) + goal.0 == trace + Continue(up, script, restServer, flagUrl).0
        invariant goal.1 == Continue(up, script, restServer, flagUrl).1
        decreases |script.link|, if up then 1 else 0
      {
        ghost var start, before := script, trace;
        var card := Scan();
        if card.None? {
          SameLast(old(trace), goal.0, before, [Show(Yellow), CardPresentPoll, ReadCardSerial]);
          return;
        }
        ghost var polled := trace;
        HandleCard(card.value);
        ghost var report := Report(Encoded(card.value), start.AfterCard(), restServer, flagUrl).0;
        ghost var cycle := Cycle(card.value, start, restServer, flagUrl);
        assert trace == polled + [Show(Blue)] + report + [HaltCard, Show(Yellow)];
        OpenedCycle(before, report);
        up := WiFiConnected();
        ghost var rest := Continue(up, script, restServer, flagUrl);
        assert Continue(true, start, restServer, flagUrl) == (cycle + rest.0, rest.1);
        AppendAssoc(before, cycle, rest.0);
      }
      SameLast(old(trace), goal.0, trace, [Show(Purple)]);
      ShowColor(Purple);
    }
  }
}

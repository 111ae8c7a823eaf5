/** The parse pipeline of an incoming order message (cloudflare-worker/index.js:10-47)
    and the client check that follows it (63-64). The message text, today's weekday,
    the validity test of JavaScript dates and the client list fetched from the database
    are inputs. */
module Orders {
  import opened Chars
  import opened Strings
  import opened Modes
  import opened Tokenizer
  import opened Items
  import opened Dates
  import opened Client
  import opened EditDistance
  import opened Matcher

  /** `extractDate(remainingWords) || getNextDeliveryDate()`: the date named in the
      message, or the next delivery day, so many days from today. */
  datatype Delivery = OnDate(date: DayMonth) | NextDeliveryDay(offset: nat)

  /** What the handler has worked out once it has the client list. */
  datatype Order = Order(mode: Mode, items: seq<Item>, delivery: Delivery, client: string,
                         clientExists: bool, closest: Option<string>)

  /** `words`: the tokens of the trimmed text without its leading keyword. */
  function Words(messageText: string): seq<string> {
    Tokenize(Trim(StripKeyword(Trim(messageText))))
  }

  /** The indices of `used` after the scan. */
  function Used(words: seq<string>): set<nat> {
    Marked(QualifiesAt(words), ScanEnd(words))
  }

  /** `remainingWords` before the date filter. */
  function RemainingWords(messageText: string): seq<string> {
    Remaining(Words(messageText), Used(Words(messageText)))
  }

  function DeliveryOf(remaining: seq<string>, today: Weekday, representable: DayMonth -> bool): Delivery {
    match FirstDate(remaining, representable)
    case Some(date) => OnDate(date)
    case None => NextDeliveryDay(DeliveryOffset(today))
  }

  /** `d` is the date of the first date token of `remaining`, with no date token
      before it, or else, when there is none, the nearest Monday, Wednesday or
      Friday, at most two days away. */
  predicate FirstOrNearest(d: Delivery, remaining: seq<string>, today: Weekday, representable: DayMonth -> bool) {
    && (d.OnDate? <==> exists k :: 0 <= k < |remaining| && IsDateToken(remaining[k], representable))
    && (d.OnDate? ==> exists k :: 0 <= k < |remaining| && IsDateToken(remaining[k], representable)
                                  && DateFields(remaining[k]) == Some(d.date)
                                  && forall j :: 0 <= j < k ==> !IsDateToken(remaining[j], representable))
    && (d.NextDeliveryDay? ==> d.offset <= 2 && IsDeliveryDay(DayAfter(today, d.offset))
                               && forall j :: 0 <= j < d.offset ==> !IsDeliveryDay(DayAfter(today, j)))
  }

  /** The delivery is the first date token's date or else the nearest delivery day. */
  lemma {:induction false} DeliveryIsFirstOrNearest(remaining: seq<string>, today: Weekday, representable: DayMonth -> bool)
    ensures FirstOrNearest(DeliveryOf(remaining, today, representable), remaining, today, representable)
  {
    FirstDateIsFirst(remaining, representable);
    DeliveryOffsetIsNearest(today);
  }

  /** A known client is its own closest match; an unknown one is offered a different
      name one to two edits away, if any. */
  lemma {:induction false} ClientMatch(client: string, clients: seq<string>)
    ensures client in clients ==> Closest(client, clients) == Some(client)
    ensures client !in clients && Closest(client, clients).Some? ==>
              Closest(client, clients).value in clients && Closest(client, clients).value != client
              && 1 <= Distance(client, Closest(client, clients).value) <= 2
  {
    if client in clients {
      ExactNameIsClosest(client, clients);
    } else if Closest(client, clients).Some? {
      SuggestionIsNear(client, clients);
    }
  }

  /** The order the handler computes from a message. */
  function Parse(messageText: string, today: Weekday, representable: DayMonth -> bool,
                 clients: seq<string>): (o: Order)
    ensures Trimmed(o.client)
    ensures o.closest.Some? <==> exists j :: 0 <= j < |clients| && Distance(o.client, clients[j]) <= 2
  {
    var raw := Trim(messageText);
    var words := Words(messageText);
    var remaining := RemainingWords(messageText);
    var client := ClientName(remaining);
    Order(ModeOf(LowerStr(raw)), ItemsBefore(words, ScanEnd(words)),
          DeliveryOf(remaining, today, representable), client, client in clients,
          Closest(client, clients))
  }

  /** The handler from the trimmed text to the client check, step by step as the
      source runs it. */
  method ParseOrder(messageText: string, today: Weekday, representable: DayMonth -> bool,
                    clients: seq<string>) returns (order: Order)
    ensures order == Parse(messageText, today, representable, clients)
  {
    var rawText := Trim(messageText);
    var lowered := LowerStr(rawText);
    var mode := ModeOf(lowered);
    var text := Trim(StripKeyword(rawText));
    var words := Tokenize(text);
    var cheeses, used := ScanItems(words);
    var remainingWords := Remaining(words, used);
    var date := ExtractDate(remainingWords, representable);
    var delivery;
    if date.Some? {
      delivery := OnDate(date.value);
    } else {
      var offset := NextDeliveryOffset(today);
      delivery := NextDeliveryDay(offset);
    }
    var client := ClientName(remainingWords);
    var clientExists := client in clients;
    var closest := FindClosest(client, clients);
    order := Order(mode, cheeses, delivery, client, clientExists, closest);
  }

  /** The words left after the scan are tokens of the message. */
  lemma {:induction false} RemainingAreTokens(messageText: string)
    ensures forall k :: 0 <= k < |RemainingWords(messageText)| ==> IsToken(RemainingWords(messageText)[k])
  {
    var words := Words(messageText);
    TokensAreTokens(Trim(StripKeyword(Trim(messageText))));
    RemainingAtKept(words, Used(words));
  }

  /** Two tokens leave the words for every item found. */
  lemma {:induction false} RemainingCountsItems(messageText: string)
    ensures |RemainingWords(messageText)|
            == |Words(messageText)| - 2 * |ItemsBefore(Words(messageText), ScanEnd(Words(messageText)))|
  {
    var words := Words(messageText);
    ScanResult(words);
    RemainingCount(words, Used(words));
  }

  /** Every item of the order is a cheese. */
  lemma {:induction false} ParseItems(messageText: string, today: Weekday, representable: DayMonth -> bool,
                                      clients: seq<string>)
    ensures var o := Parse(messageText, today, representable, clients);
      forall k :: 0 <= k < |o.items| ==> o.items[k].name in Cheeses
  {
    var words := Words(messageText);
    assert Parse(messageText, today, representable, clients).items == ItemsBefore(words, ScanEnd(words));
    ScanResult(words);
  }

  /** The delivery of the order is the first date token left after the scan, or else
      the nearest delivery day. */
  lemma {:induction false} ParseDelivery(messageText: string, today: Weekday, representable: DayMonth -> bool,
                                         clients: seq<string>)
    ensures FirstOrNearest(Parse(messageText, today, representable, clients).delivery,
                           RemainingWords(messageText), today, representable)
  {
    var remaining := RemainingWords(messageText);
    assert Parse(messageText, today, representable, clients).delivery == DeliveryOf(remaining, today, representable);
    DeliveryIsFirstOrNearest(remaining, today, representable);
  }

  /** The client name of the order, and what the client check makes of it. */
  lemma {:induction false} ParseClient(messageText: string, today: Weekday, representable: DayMonth -> bool,
                                       clients: seq<string>)
    ensures var o := Parse(messageText, today, representable, clients);
      var kept := DropDateShaped(RemainingWords(messageText));
      && o.client == Join(LowerAll(kept), " ")
      && Trimmed(o.client)
      && (o.client == "" <==> kept == [])
      && (o.clientExists ==> o.closest == Some(o.client))
      && (!o.clientExists && o.closest.Some? ==>
          o.closest.value in clients && 1 <= Distance(o.client, o.closest.value) <= 2)
  {
    var o := Parse(messageText, today, representable, clients);
    var remaining := RemainingWords(messageText);
    assert o.client == ClientName(remaining);
    assert o.clientExists == (o.client in clients) && o.closest == Closest(o.client, clients);
    RemainingAreTokens(messageText);
    ClientNameShape(remaining);
    ClientMatch(o.client, clients);
  }
}

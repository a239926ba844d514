/**
 * The `/ping` command (bot.py:944-972): the rounded latency in milliseconds
 * is classified into one of four connection statuses, each with its label
 * and embed colour.
 */
module Ping {

  datatype Status = Excellent | Good | Fair | Poor

  /** One status with what the embed shows for it. */
  datatype Classification = Classification(status: Status, text: string, colour: int)

  /** The status field text. */
  function Label(s: Status): string
  {
    match s
    case Excellent => "\U{1F7E2} Excellent"
    case Good => "\U{1F7E1} Good"
    case Fair => "\U{1F7E0} Fair"
    case Poor => "\U{1F534} Poor"
  }

  /** The embed colour. */
  function Colour(s: Status): int
  {
    match s
    case Excellent => 0x00FF00
    case Good => 0xFFFF00
    case Fair => 0xFFA500
    case Poor => 0xFF0000
  }

  /** How bad a status is: 0 is the best. */
  function Rank(s: Status): nat
  {
    match s
    case Excellent => 0
    case Good => 1
    case Fair => 2
    case Poor => 3
  }

  /** The if/elif ladder of bot.py:949-960, total over all integers. */
  function Classify(latency: int): (c: Classification)
    ensures c.status == Excellent <==> latency < 100
    ensures c.status == Good <==> 100 <= latency < 200
    ensures c.status == Fair <==> 200 <= latency < 300
    ensures c.status == Poor <==> 300 <= latency
    ensures c.text == Label(c.status) && c.colour == Colour(c.status)
  {
    if latency < 100 then Classification(Excellent, Label(Excellent), Colour(Excellent))
    else if latency < 200 then Classification(Good, Label(Good), Colour(Good))
    else if latency < 300 then Classification(Fair, Label(Fair), Colour(Fair))
    else Classification(Poor, Label(Poor), Colour(Poor))
  }

  /** A higher latency never yields a better status. */
  lemma ClassifyMonotone(a: int, b: int)
    requires a <= b
    ensures Rank(Classify(a).status) <= Rank(Classify(b).status)
  {
  }

  /** The colour alone tells which status was chosen. */
  lemma ColourDeterminesStatus(s: Status, t: Status)
    requires Colour(s) == Colour(t)
    ensures s == t
  {
  }
}

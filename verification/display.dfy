/** Small display rules: attribute escaping (`escapeHtml`), counters that
    never drop below zero, the notification badge, the conversation
    preview, and the relative-time buckets of `formatTime`. */
module Display {
  import opened Common
  import opened Strings

  const Quot: string := "&quot;"
  const Apos: string := "&#39;"

  /** `escapeHtml(text)`: double quotes are replaced first, then single
      quotes; nothing else is touched. */
  function EscapeHtml(text: string): (r: string)
    ensures '"' !in r && '\'' !in r
  {
    assert '"' !in Apos;
    ReplaceAll(ReplaceAll(text, '"', Quot), '\'', Apos)
  }

  /** The per-character reading of the escape. */
  function EscapeChar(c: char): string {
    if c == '"' then Quot else if c == '\'' then Apos else [c]
  }

  function EscapeEach(text: string): (r: string)
    ensures |r| >= |text|
  {
    if |text| == 0 then "" else EscapeChar(text[0]) + EscapeEach(text[1..])
  }

  /** The two passes equal one pass over the characters: the first pass
      introduces no single quote for the second to rewrite. */
  lemma {:induction false} EscapeIsPerCharacter(text: string)
    ensures EscapeHtml(text) == EscapeEach(text)
    decreases |text|
  {
    if |text| > 0 {
      EscapeIsPerCharacter(text[1..]);
      var head := if text[0] == '"' then Quot else [text[0]];
      var rest := ReplaceAll(text[1..], '"', Quot);
      assert ReplaceAll(text, '"', Quot) == head + rest;
      ReplaceAllAppend(head, rest, '\'', Apos);
      assert ReplaceAll(head, '\'', Apos) == EscapeChar(text[0]) by {
        if text[0] == '"' {
          assert '\'' !in Quot;
          ReplaceAllAbsent(Quot, '\'', Apos);
        } else {
          assert [text[0]][1..] == [];
        }
      }
    }
  }

  /** Text without quotes passes through unchanged. */
  lemma {:induction false} EscapeKeepsQuoteFreeText(text: string)
    requires '"' !in text && '\'' !in text
    ensures EscapeHtml(text) == text
  {
    EscapeIsPerCharacter(text);
    EscapeEachIdentity(text);
  }

  lemma {:induction false} EscapeEachIdentity(text: string)
    requires '"' !in text && '\'' !in text
    ensures EscapeEach(text) == text
    decreases |text|
  {
    if |text| > 0 {
      EscapeEachIdentity(text[1..]);
      assert text == [text[0]] + text[1..];
    }
  }

  /** Comment counter after deleting a comment, and the topic subscriber
      counter after a subscribe toggle: the decrement stops at zero. */
  function Decrement(n: int): (r: int)
    ensures r >= 0
    ensures n >= 1 ==> r == n - 1
    ensures n <= 1 ==> r == 0
  {
    Max(0, n - 1)
  }

  function SubscriberCount(n: int, subscribed: bool): (r: int)
    ensures subscribed ==> r == n + 1
    ensures !subscribed ==> r >= 0 && (n >= 1 ==> r == n - 1)
    ensures !subscribed && n <= 1 ==> r == 0
  {
    if subscribed then n + 1 else Decrement(n)
  }

  /** Subscribing and then unsubscribing restores a shown count. */
  lemma SubscribeThenUnsubscribe(n: nat)
    ensures SubscriberCount(SubscriberCount(n, true), false) == n
  {
  }

  /** The notification bell: hidden for no unread items, the number up to
      99, and "99+" above. */
  datatype Badge = NoBadge | Exact(n: nat) | Overflow

  function UnreadBadge(count: int): (b: Badge)
    ensures b.NoBadge? <==> count <= 0
    ensures b.Exact? ==> b.n == count && 1 <= count <= 99
    ensures b.Overflow? <==> count > 99
  {
    if count > 0 then (if count > 99 then Overflow else Exact(count)) else NoBadge
  }

  /** The order of badges by how much they announce. */
  function BadgeLevel(b: Badge): nat {
    match b
    case NoBadge => 0
    case Exact(n) => n
    case Overflow => 100
  }

  /** More unread items never show a smaller badge. */
  lemma BadgeIsMonotone(a: int, b: int)
    requires a <= b
    ensures BadgeLevel(UnreadBadge(a)) <= BadgeLevel(UnreadBadge(b))
  {
  }

  const PreviewLength: nat := 50
  const NoMessages: string := "Нет сообщений"

  /** The last-message preview of a conversation: a missing message shows a
      placeholder, and a message over 50 characters is cut to 50 followed
      by an ellipsis. */
  function Preview(lastMessage: string): (r: string)
    ensures lastMessage == [] ==> r == NoMessages
    ensures |lastMessage| > PreviewLength ==>
              |r| == PreviewLength + 3 && r[..PreviewLength] == lastMessage[..PreviewLength]
              && r[PreviewLength..] == "..."
    ensures 0 < |lastMessage| <= PreviewLength ==> r == lastMessage
    ensures |r| <= PreviewLength + 3
  {
    var text := if lastMessage == [] then NoMessages else lastMessage;
    if |text| > PreviewLength then text[..PreviewLength] + "..." else text
  }

  /** A preview is its own preview: the placeholder and a cut text are
      short enough, or end exactly where the next cut would fall. */
  lemma PreviewIsIdempotent(lastMessage: string)
    ensures Preview(Preview(lastMessage)) == Preview(lastMessage)
  {
  }

  /** Relative age of a timestamp, from the elapsed milliseconds. */
  datatype Age = JustNow | MinutesAgo(minutes: nat) | HoursAgo(hours: nat) | DaysAgo(days: nat) | CalendarDate

  const MinuteMs: nat := 60000
  const HourMs: nat := 3600000
  const DayMs: nat := 86400000

  /** The buckets of `formatTime`; `Math.floor` agrees with Dafny's
      division for a positive divisor, and a future time (negative
      elapsed) reads "just now". */
  function FormatAge(elapsedMs: int): (a: Age)
    ensures a == JustNow <==> elapsedMs < MinuteMs
    ensures a.MinutesAgo? <==> MinuteMs <= elapsedMs < HourMs
    ensures a.HoursAgo? <==> HourMs <= elapsedMs < DayMs
    ensures a.DaysAgo? <==> DayMs <= elapsedMs < 7 * DayMs
    ensures a == CalendarDate <==> elapsedMs >= 7 * DayMs
    ensures a.MinutesAgo? ==> 1 <= a.minutes <= 59 && a.minutes * MinuteMs <= elapsedMs < (a.minutes + 1) * MinuteMs
    ensures a.HoursAgo? ==> 1 <= a.hours <= 23 && a.hours * HourMs <= elapsedMs < (a.hours + 1) * HourMs
    ensures a.DaysAgo? ==> 1 <= a.days <= 6 && a.days * DayMs <= elapsedMs < (a.days + 1) * DayMs
  {
    var minutes := elapsedMs / MinuteMs;
    var hours := elapsedMs / HourMs;
    var days := elapsedMs / DayMs;
    if minutes < 1 then JustNow
    else if minutes < 60 then MinutesAgo(minutes)
    else if hours < 24 then HoursAgo(hours)
    else if days < 7 then DaysAgo(days)
    else CalendarDate
  }

  /** Time only moves a timestamp towards coarser buckets. */
  function Rank(a: Age): nat {
    match a
    case JustNow => 0
    case MinutesAgo(_) => 1
    case HoursAgo(_) => 2
    case DaysAgo(_) => 3
    case CalendarDate => 4
  }

  lemma AgeIsMonotone(e: int, e': int)
    requires e <= e'
    ensures Rank(FormatAge(e)) <= Rank(FormatAge(e'))
  {
  }
}

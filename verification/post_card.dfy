/** The figures a post card derives from its post: the reading time, the
    colour gradient picked by the id's last hex digit, and the fallbacks
    for a missing author. The home grid and the home statistics compute
    the reading time by the same formula, so they use this one. */
module PostCard {
  import opened Common
  import opened Posts
  import Text

  const WordsPerMinute := 200

  /** `Math.ceil(a / b)` for a non-negative `a` and positive `b`. */
  function CeilDiv(a: nat, b: nat): (q: nat)
    requires b > 0
    ensures q * b >= a
    ensures q == 0 || (q - 1) * b < a
  {
    (a + b - 1) / b
  }

  /** `content.split(' ').length`: one more word than there are spaces. */
  function WordCount(content: string): (n: nat)
    ensures n == Text.Count(content, ' ') + 1
  {
    |Text.Split(content, ' ')|
  }

  /** `getReadingTime`: whole minutes at 200 words a minute, rounded up. */
  function ReadingTime(content: string): (m: nat)
    ensures m >= 1
    ensures m * WordsPerMinute >= WordCount(content)
    ensures (m - 1) * WordsPerMinute < WordCount(content)
  {
    CeilDiv(WordCount(content), WordsPerMinute)
  }

  /** The quotient rounded up never falls when the dividend grows. */
  lemma CeilDivMonotone(a: nat, c: nat, b: nat)
    requires b > 0 && a <= c
    ensures CeilDiv(a, b) <= CeilDiv(c, b)
  {
    var lo, hi := CeilDiv(a, b), CeilDiv(c, b);
    if hi < lo {
      MulMonotone(hi, lo - 1, b);
      assert false;
    }
  }

  lemma MulMonotone(x: nat, y: nat, b: nat)
    requires x <= y
    ensures x * b <= y * b
  {
    assert y * b == x * b + (y - x) * b;
  }

  /** Appending text never shortens the reading time. */
  lemma ReadingTimeMonotone(a: string, b: string)
    ensures ReadingTime(a + b) >= ReadingTime(a)
  {
    Text.CountAppend(a, b, ' ');
    CeilDivMonotone(WordCount(a), WordCount(a + b), WordsPerMinute);
  }

  /** Text without spaces, the empty text included, reads in one minute. */
  lemma OneWordOneMinute(content: string)
    requires Text.Count(content, ' ') == 0
    ensures ReadingTime(content) == 1
  {
  }

  const Gradients: seq<string> := [
    "from-blue-500 to-purple-600",
    "from-purple-500 to-pink-600",
    "from-green-500 to-blue-600",
    "from-orange-500 to-red-600",
    "from-teal-500 to-cyan-600",
    "from-indigo-500 to-purple-600",
    "from-pink-500 to-rose-600",
    "from-emerald-500 to-teal-600"
  ]

  /** `parseInt(c, 16)` for one character: its value if it is a hex digit. */
  function HexValue(c: char): (v: Option<nat>)
    ensures v.Some? ==> v.value < 16
    ensures v.Some? <==> Text.IsDigit(c) || 'a' <= c <= 'f' || 'A' <= c <= 'F'
  {
    if Text.IsDigit(c) then Some(c as int - '0' as int)
    else if 'a' <= c <= 'f' then Some(c as int - 'a' as int + 10)
    else if 'A' <= c <= 'F' then Some(c as int - 'A' as int + 10)
    else None
  }

  /** The lower-case hex digit of a value below 16. */
  function HexDigit(n: nat): (c: char)
    requires n < 16
  {
    if n < 10 then (n + '0' as int) as char else (n - 10 + 'a' as int) as char
  }

  /** Reading back a written hex digit gives its value. */
  lemma HexRoundTrip(n: nat)
    requires n < 16
    ensures HexValue(HexDigit(n)) == Some(n)
  {
  }

  /** The index into `Gradients` chosen by `parseInt(id.slice(-1), 16) %
      gradients.length`; `None` where that is `NaN` (an empty id, or a last
      character that is not a hex digit), which leaves the card without a
      gradient. */
  function GradientIndex(id: string): (g: Option<nat>)
    ensures g.Some? <==> |id| > 0 && HexValue(id[|id| - 1]).Some?
    ensures g.Some? ==> g.value < |Gradients| && g.value == HexValue(id[|id| - 1]).value % 8
  {
    if |id| == 0 then None
    else match HexValue(id[|id| - 1])
      case None => None
      case Some(v) => Some(v % |Gradients|)
  }

  /** An id ending in the hex digit of `n` gets gradient `n mod 8`. */
  lemma GradientOfHexEnding(prefix: string, n: nat)
    requires n < 16
    ensures GradientIndex(prefix + [HexDigit(n)]) == Some(n % 8)
  {
    HexRoundTrip(n);
    assert (prefix + [HexDigit(n)])[|prefix|] == HexDigit(n);
  }

  const DefaultBadge := "AUTOR"
  const DefaultAuthor := "Usuario"

  /** `post.profiles?.username?.toUpperCase() || 'AUTOR'`. */
  function Badge(post: Post): (b: string)
    ensures post.profiles.None? || post.profiles.value.username == "" ==> b == DefaultBadge
    ensures post.profiles.Some? && post.profiles.value.username != "" ==> b == Text.Upper(post.profiles.value.username)
    ensures |b| > 0
  {
    match post.profiles
    case None => DefaultBadge
    case Some(a) => if a.username == "" then DefaultBadge else Text.Upper(a.username)
  }

  /** `post.profiles?.full_name || 'Usuario'`. */
  function AuthorName(post: Post): (n: string)
    ensures post.profiles.None? || post.profiles.value.fullName == "" ==> n == DefaultAuthor
    ensures post.profiles.Some? && post.profiles.value.fullName != "" ==> n == post.profiles.value.fullName
    ensures |n| > 0
  {
    match post.profiles
    case None => DefaultAuthor
    case Some(a) => if a.fullName == "" then DefaultAuthor else a.fullName
  }

  /** The badge is the placeholder exactly when there is no username to show
      or the username itself upper-cases to it. */
  lemma BadgeIsDefaultIff(post: Post)
    ensures Badge(post) == DefaultBadge <==>
      post.profiles.None? || post.profiles.value.username == "" || Text.Upper(post.profiles.value.username) == DefaultBadge
  {
  }

  /** The name is the placeholder exactly when the full name is missing or empty
      or is the placeholder itself. */
  lemma AuthorIsDefaultIff(post: Post)
    ensures AuthorName(post) == DefaultAuthor <==>
      post.profiles.None? || post.profiles.value.fullName == "" || post.profiles.value.fullName == DefaultAuthor
  {
  }
}

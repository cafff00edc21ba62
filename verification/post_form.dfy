/** The post editor form: the schema every submitted field must satisfy,
    with its Spanish messages, and the slug it derives from the title
    while a new post is being written. */
module PostForm {
  import opened Common
  import opened Posts
  import Text
  import Seqs

  /* ----- slug generation ----- */

  /** A character the slug rule `^[a-z0-9-]+$` allows. */
  predicate IsSlugChar(c: char) {
    Text.IsAsciiLower(c) || Text.IsDigit(c) || c == '-'
  }

  predicate IsDash(c: char) {
    c == '-'
  }

  /** The characters `/[^a-z0-9\s-]/g` leaves in place. */
  predicate Kept(c: char) {
    IsSlugChar(c) || Text.IsSpace(c)
  }

  /** `.replace(/[^a-z0-9\s-]/g, '')`. */
  function StripSpecial(s: string): (r: string)
    ensures forall c :: c in r ==> Kept(c)
    ensures forall i :: 0 <= i < |s| && Kept(s[i]) ==> s[i] in r
    ensures multiset(r) <= multiset(s)
  {
    Seqs.Filter(s, (c: char) => Kept(c))
  }

  /** `.replace(/R+/g, [rep])` where `inRun` is the class `R`: every maximal
      run of characters in the class becomes one `rep`. `afterRun` says the
      character before `s` was in the class, so `s` continues that run. */
  function Collapse(s: string, inRun: char -> bool, rep: char, afterRun: bool): (r: string)
    ensures |r| <= |s|
    ensures forall c :: c in r ==> c == rep || (c in s && !inRun(c))
    ensures !afterRun ==> (|r| == 0 <==> |s| == 0)
  {
    if |s| == 0 then ""
    else if inRun(s[0]) then
      (if afterRun then "" else [rep]) + Collapse(s[1..], inRun, rep, true)
    else
      [s[0]] + Collapse(s[1..], inRun, rep, false)
  }

  /** `.replace(/\s+/g, '-')`. */
  function DashSpaces(s: string): (r: string)
    ensures forall c :: c in r ==> c == '-' || (c in s && !Text.IsSpace(c))
    ensures |r| == 0 <==> |s| == 0
    ensures (forall i :: 0 <= i < |s| ==> !Text.IsSpace(s[i])) ==> r == s
  {
    ClassFreeFixed(s, (c: char) => Text.IsSpace(c), '-');
    Collapse(s, (c: char) => Text.IsSpace(c), '-', false)
  }

  /** `.replace(/-+/g, '-')`. */
  function SquashDashes(s: string): (r: string)
    ensures forall c :: c in r ==> c in s || c == '-'
    ensures NoDoubleDash(r)
    ensures |r| == 0 <==> |s| == 0
    ensures NoDoubleDash(s) ==> r == s
  {
    CollapseNoRepeat(s, (c: char) => IsDash(c), '-', false);
    SquashFixed(s);
    Collapse(s, (c: char) => IsDash(c), '-', false)
  }

  /** `trimStart`: drops leading whitespace. */
  function TrimStart(s: string): (r: string)
    ensures |r| <= |s| && r == s[|s| - |r|..]
    ensures |r| > 0 ==> !Text.IsSpace(r[0])
    ensures forall i :: 0 <= i < |s| - |r| ==> Text.IsSpace(s[i])
  {
    if |s| > 0 && Text.IsSpace(s[0]) then TrimStart(s[1..]) else s
  }

  /** `trimEnd`: drops trailing whitespace. */
  function TrimEnd(s: string): (r: string)
    ensures |r| <= |s| && r == s[..|r|]
    ensures |r| > 0 ==> !Text.IsSpace(r[|r| - 1])
    ensures forall i :: |r| <= i < |s| ==> Text.IsSpace(s[i])
  {
    if |s| > 0 && Text.IsSpace(s[|s| - 1]) then TrimEnd(s[..|s| - 1]) else s
  }

  /** `.trim()`. */
  function Trim(s: string): string {
    TrimEnd(TrimStart(s))
  }

  /** The slug the form derives from a title. Case mapping is ASCII only:
      accented and other non-ASCII letters are dropped with the rest of the
      characters outside `[a-z0-9\s-]`. */
  function Slugify(title: string): (r: string)
    ensures |r| <= |title|
    ensures forall i :: 0 <= i < |r| ==> IsSlugChar(r[i])
    ensures NoDoubleDash(r)
    ensures SlugRule(r) <==> |r| > 0
  {
    var squashed := SquashDashes(DashSpaces(StripSpecial(Text.Lower(title))));
    SquashedChars(title);
    TrimNoSpace(squashed);
    Trim(squashed)
  }

  /** The slug rule: `^[a-z0-9-]+$`. */
  predicate SlugRule(s: string) {
    |s| >= 1 && forall i :: 0 <= i < |s| ==> IsSlugChar(s[i])
  }

  /** `c` never occurs twice in a row in `s`. */
  predicate NoRepeat(s: string, c: char) {
    forall i :: 0 <= i < |s| ==> (s[i] == c ==> i + 1 == |s| || s[i + 1] != c)
  }

  /** No two dashes in a row. */
  predicate NoDoubleDash(s: string) {
    NoRepeat(s, '-')
  }

  /* ----- slug properties ----- */

  /** Without whitespace in a string, trimming leaves it alone. */
  lemma TrimNoSpace(s: string)
    requires forall i :: 0 <= i < |s| ==> !Text.IsSpace(s[i])
    ensures Trim(s) == s
  {
  }

  /** Collapsing a class that contains `rep` never puts two `rep` side by
      side, and a run continued from before `s` adds no `rep` in front. */
  lemma {:induction false} CollapseNoRepeat(s: string, inRun: char -> bool, rep: char, afterRun: bool)
    requires inRun(rep)
    ensures NoRepeat(Collapse(s, inRun, rep, afterRun), rep)
    ensures afterRun && |Collapse(s, inRun, rep, afterRun)| > 0 ==> Collapse(s, inRun, rep, afterRun)[0] != rep
  {
    if |s| > 0 {
      var r := Collapse(s, inRun, rep, afterRun);
      var t := Collapse(s[1..], inRun, rep, inRun(s[0]));
      CollapseNoRepeat(s[1..], inRun, rep, inRun(s[0]));
      if !inRun(s[0]) || !afterRun {
        var h := if inRun(s[0]) then rep else s[0];
        assert r == [h] + t;
        forall i | 0 <= i < |r| && r[i] == rep && i + 1 < |r|
          ensures r[i + 1] != rep
        {
          assert r[i + 1] == t[i];
          if i > 0 {
            assert r[i] == t[i - 1];
          }
        }
      }
    }
  }

  /** A string in which every class member is `rep`, no two sit side by
      side, and (after a run) none opens it, is left alone by collapsing. */
  lemma {:induction false} CollapseFixed(s: string, inRun: char -> bool, rep: char, afterRun: bool)
    requires forall i :: 0 <= i < |s| && inRun(s[i]) ==> s[i] == rep
    requires forall i :: 0 <= i < |s| - 1 ==> !(inRun(s[i]) && inRun(s[i + 1]))
    requires afterRun && |s| > 0 ==> !inRun(s[0])
    ensures Collapse(s, inRun, rep, afterRun) == s
  {
    if |s| > 0 {
      assert forall i :: 0 <= i < |s[1..]| ==> s[1..][i] == s[i + 1];
      CollapseFixed(s[1..], inRun, rep, inRun(s[0]));
      Seqs.HeadTail(s);
    }
  }

  /** A string with no class member is left alone by collapsing. */
  lemma ClassFreeFixed(s: string, inRun: char -> bool, rep: char)
    ensures (forall i :: 0 <= i < |s| ==> !inRun(s[i])) ==> Collapse(s, inRun, rep, false) == s
  {
    if forall i :: 0 <= i < |s| ==> !inRun(s[i]) {
      CollapseFixed(s, inRun, rep, false);
    }
  }

  /** A string without a double dash is left alone by squashing dashes. */
  lemma SquashFixed(s: string)
    ensures NoDoubleDash(s) ==> Collapse(s, (c: char) => IsDash(c), '-', false) == s
  {
    if NoDoubleDash(s) {
      CollapseFixed(s, (c: char) => IsDash(c), '-', false);
    }
  }

  /** Whether a run of the class is open after `s`, when `afterRun` says
      whether one was open before it. */
  function RunOpenAfter(s: string, inRun: char -> bool, afterRun: bool): bool {
    if |s| == 0 then afterRun else inRun(s[|s| - 1])
  }

  /** One character: a class member opens a run, written as one `rep`,
      unless a run is already open; any other character is kept. */
  lemma CollapseSingle(c: char, inRun: char -> bool, rep: char, afterRun: bool)
    ensures Collapse([c], inRun, rep, afterRun) == if inRun(c) then (if afterRun then "" else [rep]) else [c]
  {
    assert [c][1..] == "";
  }

  /** Collapsing distributes over concatenation, with the open run carried
      across the join. With `CollapseSingle` this fixes the result for
      every string: the characters outside the class in their order, and
      one `rep` where each maximal run stood. */
  lemma {:induction false} CollapseAppend(a: string, b: string, inRun: char -> bool, rep: char, afterRun: bool)
    ensures Collapse(a + b, inRun, rep, afterRun)
         == Collapse(a, inRun, rep, afterRun) + Collapse(b, inRun, rep, RunOpenAfter(a, inRun, afterRun))
  {
    if |a| == 0 {
      assert a + b == b;
    } else {
      assert (a + b)[0] == a[0];
      assert (a + b)[1..] == a[1..] + b;
      CollapseAppend(a[1..], b, inRun, rep, inRun(a[0]));
      if |a| > 1 {
        assert a[1..][|a| - 2] == a[|a| - 1];
      }
      var h := if inRun(a[0]) then (if afterRun then "" else [rep]) else [a[0]];
      Seqs.Regroup(h, Collapse(a[1..], inRun, rep, inRun(a[0])), Collapse(b, inRun, rep, RunOpenAfter(a, inRun, afterRun)));
    }
  }

  /** A class-free word, one class member, then a string opening with a
      character outside the class: the word is kept and the member
      becomes `rep`. */
  lemma CollapseLead(w: string, sep: char, rest: string, inRun: char -> bool, rep: char)
    requires |w| > 0 && forall j :: 0 <= j < |w| ==> !inRun(w[j])
    requires inRun(sep) && |rest| > 0 && !inRun(rest[0])
    ensures Collapse(w + ([sep] + rest), inRun, rep, false) == w + ([rep] + Collapse(rest, inRun, rep, false))
  {
    CollapseFixed(w, inRun, rep, false);
    CollapseAppend(w, [sep] + rest, inRun, rep, false);
    assert ([sep] + rest)[1..] == rest;
  }

  /** Non-empty words free of the class, joined by one class member, come
      out joined by `rep` instead. */
  lemma {:induction false} CollapseWords(ws: seq<string>, sep: char, inRun: char -> bool, rep: char)
    requires |ws| >= 1 && inRun(sep)
    requires forall k :: 0 <= k < |ws| ==> |ws[k]| > 0
    requires forall k, j :: 0 <= k < |ws| && 0 <= j < |ws[k]| ==> !inRun(ws[k][j])
    ensures Collapse(Text.Join(ws, sep), inRun, rep, false) == Text.Join(ws, rep)
  {
    var w := ws[0];
    assert forall j :: 0 <= j < |w| ==> !inRun(w[j]);
    if |ws| == 1 {
      CollapseFixed(w, inRun, rep, false);
    } else {
      var tail := ws[1..];
      assert forall k :: 0 <= k < |tail| ==> tail[k] == ws[k + 1];
      CollapseWords(tail, sep, inRun, rep);
      var rest := Text.Join(tail, sep);
      Text.JoinStart(tail, sep);
      CollapseLead(w, sep, rest, inRun, rep);
      calc {
        Collapse(Text.Join(ws, sep), inRun, rep, false);
        { Seqs.Regroup(w, [sep], rest); }
        Collapse(w + ([sep] + rest), inRun, rep, false);
        w + ([rep] + Text.Join(tail, rep));
        { Seqs.Regroup(w, [rep], Text.Join(tail, rep)); }
        Text.Join(ws, rep);
      }
    }
  }

  /** What the dash-squashing step produces holds only slug characters. */
  lemma SquashedChars(title: string)
    ensures var c := SquashDashes(DashSpaces(StripSpecial(Text.Lower(title))));
            forall i :: 0 <= i < |c| ==> IsSlugChar(c[i])
  {
    var c := SquashDashes(DashSpaces(StripSpecial(Text.Lower(title))));
    forall i | 0 <= i < |c| ensures IsSlugChar(c[i]) {
      assert c[i] in c;
    }
  }

  /** The double-dash rule stated with `includes`. */
  lemma NoDoubleDashIff(s: string)
    ensures NoDoubleDash(s) <==> !Text.Contains(s, "--")
  {
    if !NoDoubleDash(s) {
      var i :| 0 <= i < |s| && s[i] == '-' && i + 1 < |s| && s[i + 1] == '-';
      assert Text.OccursAt(s, "--", i);
    }
    if Text.Contains(s, "--") {
      var i :| 0 <= i <= |s| && Text.OccursAt(s, "--", i);
      assert s[i..i + 2][0] == s[i] && s[i..i + 2][1] == s[i + 1];
    }
  }

  /** A string of slug characters without a double dash is its own slug. */
  lemma SlugOfSlug(s: string)
    requires forall i :: 0 <= i < |s| ==> IsSlugChar(s[i])
    requires NoDoubleDash(s)
    ensures Slugify(s) == s
  {
    Text.LowerKeepsLower(s);
    assert StripSpecial(s) == s by {
      Seqs.FilterKeepsAll(s, (c: char) => Kept(c));
    }
    assert DashSpaces(s) == s by {
      CollapseFixed(s, (c: char) => Text.IsSpace(c), '-', false);
    }
    assert SquashDashes(s) == s by {
      CollapseFixed(s, (c: char) => IsDash(c), '-', false);
    }
    TrimNoSpace(s);
  }

  /** Generating a slug from a generated slug changes nothing. */
  lemma SlugifyIdempotent(title: string)
    ensures Slugify(Slugify(title)) == Slugify(title)
  {
    SlugOfSlug(Slugify(title));
  }

  /** Words of lower-case letters and digits. */
  predicate PlainWords(ws: seq<string>) {
    && |ws| >= 1
    && (forall k :: 0 <= k < |ws| ==> |ws[k]| > 0)
    && (forall k, j :: 0 <= k < |ws| && 0 <= j < |ws[k]| ==>
          Text.IsAsciiLower(ws[k][j]) || Text.IsDigit(ws[k][j]))
  }

  /** Plain words joined by spaces pass lower-casing and the character
      filter unchanged. */
  lemma PlainWordsKept(ws: seq<string>)
    requires PlainWords(ws)
    ensures StripSpecial(Text.Lower(Text.Join(ws, ' '))) == Text.Join(ws, ' ')
  {
    var t := Text.Join(ws, ' ');
    Text.JoinChars(ws, ' ', (c: char) => Kept(c) && !Text.IsAsciiUpper(c));
    Text.LowerKeepsLower(t);
    Seqs.FilterKeepsAll(t, (c: char) => Kept(c));
  }

  /** Plain words joined by dashes hold no whitespace. */
  lemma PlainWordsNoSpace(ws: seq<string>)
    requires PlainWords(ws)
    ensures forall i :: 0 <= i < |Text.Join(ws, '-')| ==> !Text.IsSpace(Text.Join(ws, '-')[i])
  {
    Text.JoinChars(ws, '-', (c: char) => !Text.IsSpace(c));
  }

  /** An ordinary title, lower-case words of letters and digits separated
      by single spaces, becomes the same words joined by dashes. */
  lemma SlugOfWords(ws: seq<string>)
    requires PlainWords(ws)
    ensures Slugify(Text.Join(ws, ' ')) == Text.Join(ws, '-')
  {
    var d := Text.Join(ws, '-');
    PlainWordsKept(ws);
    CollapseWords(ws, ' ', (c: char) => Text.IsSpace(c), '-');
    CollapseWords(ws, '-', (c: char) => IsDash(c), '-');
    PlainWordsNoSpace(ws);
    TrimNoSpace(d);
  }

  /** The slug does not depend on the case of the title's ASCII letters. */
  lemma SlugIgnoresCase(title: string)
    ensures Slugify(Text.Upper(title)) == Slugify(title)
    ensures Slugify(Text.Lower(title)) == Slugify(title)
  {
    Text.LowerOfUpper(title);
    Text.LowerIdempotent(title);
  }

  /** Removing special characters distributes over concatenation... */
  lemma StripSpecialAppend(a: string, b: string)
    ensures StripSpecial(a + b) == StripSpecial(a) + StripSpecial(b)
  {
    Seqs.FilterAppend(a, b, (c: char) => Kept(c));
  }

  /** ...and keeps a single character exactly when the pattern allows it, so
      the kept characters stay in their order. */
  lemma StripSpecialSingle(c: char)
    ensures StripSpecial([c]) == if Kept(c) then [c] else ""
  {
    assert [c][1..] == "";
  }

  /* ----- the schema ----- */

  const TitleRequired := "El título es requerido"
  const TitleTooLong := "El título es muy largo"
  const ExcerptRequired := "El resumen es requerido"
  const ExcerptTooLong := "El resumen es muy largo"
  const ContentRequired := "El contenido es requerido"
  const SlugRequired := "El slug es requerido"
  const SlugPattern := "El slug solo puede contener letras minúsculas, números y guiones"
  const CoverInvalid := "Debe ser una URL válida o estar vacío"

  const TitleMax := 200
  const ExcerptMax := 300

  /** What the form holds when it is submitted. */
  datatype FormInput = FormInput(title: string, excerpt: string, content: string, slug: string, coverImage: Option<string>)

  /** The first message the schema reports for each field, if any. */
  datatype Errors = Errors(
    title: Option<string>,
    excerpt: Option<string>,
    content: Option<string>,
    slug: Option<string>,
    coverImage: Option<string>)

  predicate NoErrors(e: Errors) {
    e.title.None? && e.excerpt.None? && e.content.None? && e.slug.None? && e.coverImage.None?
  }

  /** `z.string().min(1, required).max(max, tooLong)`: the first failing check's message. */
  function LengthError(s: string, max: int, required: string, tooLong: string): (r: Option<string>)
    ensures r == None <==> 1 <= |s| <= max
    ensures |s| == 0 ==> r == Some(required)
    ensures |s| > max >= 1 ==> r == Some(tooLong)
  {
    if |s| < 1 then Some(required)
    else if |s| > max then Some(tooLong)
    else None
  }

  /** `z.string().min(1, required)`. */
  function RequiredError(s: string, required: string): (r: Option<string>)
    ensures r == None <==> |s| >= 1
  {
    if |s| < 1 then Some(required) else None
  }

  /** The slug field: the length check is listed first, so an empty slug
      reports it rather than the pattern. */
  function SlugError(s: string): (r: Option<string>)
    ensures r == None <==> SlugRule(s)
    ensures |s| == 0 ==> r == Some(SlugRequired)
  {
    if |s| < 1 then Some(SlugRequired)
    else if !(forall i :: 0 <= i < |s| ==> IsSlugChar(s[i])) then Some(SlugPattern)
    else None
  }

  /** The cover field: absent or empty is fine, anything else must be a
      URL. `isUrl` stands for zod's URL check. */
  function CoverError(cover: Option<string>, isUrl: string -> bool): (r: Option<string>)
    ensures r == None <==> cover.None? || cover.value == "" || isUrl(cover.value)
  {
    match cover
    case None => None
    case Some(v) => if v == "" || isUrl(v) then None else Some(CoverInvalid)
  }

  /** `postSchema` applied to the form. */
  function Validate(f: FormInput, isUrl: string -> bool): (e: Errors)
    ensures e.title == None <==> 1 <= |f.title| <= TitleMax
    ensures e.excerpt == None <==> 1 <= |f.excerpt| <= ExcerptMax
    ensures e.content == None <==> |f.content| >= 1
    ensures e.slug == None <==> SlugRule(f.slug)
    ensures e.coverImage == None <==> f.coverImage.None? || f.coverImage.value == "" || isUrl(f.coverImage.value)
    ensures NoErrors(e) <==> Acceptable(f, isUrl)
  {
    Errors(
      LengthError(f.title, TitleMax, TitleRequired, TitleTooLong),
      LengthError(f.excerpt, ExcerptMax, ExcerptRequired, ExcerptTooLong),
      RequiredError(f.content, ContentRequired),
      SlugError(f.slug),
      CoverError(f.coverImage, isUrl))
  }

  /** The form's fields satisfy every rule of the schema. */
  predicate Acceptable(f: FormInput, isUrl: string -> bool) {
    && 1 <= |f.title| <= TitleMax
    && 1 <= |f.excerpt| <= ExcerptMax
    && |f.content| >= 1
    && SlugRule(f.slug)
    && (f.coverImage.None? || f.coverImage.value == "" || isUrl(f.coverImage.value))
  }

  /** With the slug generated from the title, the slug never draws a
      message once it is non-empty, and the form is acceptable exactly when
      that slug is non-empty and the other fields keep their rules. */
  lemma GeneratedSlugAccepted(f: FormInput, isUrl: string -> bool)
    ensures var g := f.(slug := Slugify(f.title));
            && (|g.slug| > 0 ==> SlugError(g.slug) == None)
            && (Acceptable(g, isUrl) <==>
                  && |g.slug| > 0
                  && 1 <= |f.title| <= TitleMax
                  && 1 <= |f.excerpt| <= ExcerptMax
                  && |f.content| >= 1
                  && (f.coverImage.None? || f.coverImage.value == "" || isUrl(f.coverImage.value)))
  {
  }

  /* ----- the form's behaviour ----- */

  /** The values the form starts from: the post's own when editing (an
      absent cover becomes the empty string), empty when creating. */
  function Defaults(post: Option<Post>): (r: FormInput)
    ensures post.Some? ==> r.title == post.value.title && r.slug == post.value.slug
    ensures post.Some? ==> r.excerpt == post.value.excerpt && r.content == post.value.content
    ensures post.Some? ==> r.coverImage == Some(post.value.coverImage.GetOr(""))
    ensures post.None? ==> r == FormInput("", "", "", "", None)
  {
    match post
    case None => FormInput("", "", "", "", None)
    case Some(p) => FormInput(p.title, p.excerpt, p.content, p.slug, Some(p.coverImage.GetOr("")))
  }

  /** The slug effect: when the title changes on a new post, the slug field
      becomes the slug of the title; an empty title or an edited post keeps
      whatever slug the field holds. */
  function AutoSlug(title: string, editing: bool, slug: string): (r: string)
    ensures editing ==> r == slug
    ensures title == "" ==> r == slug
    ensures !editing && title != "" ==> r == Slugify(title)
  {
    if title != "" && !editing then Slugify(title) else slug
  }

  const SubmitAlert := "Error al publicar el post. Por favor, inténtalo de nuevo."

  /** What pressing a submit button leads to. */
  datatype Submission =
    | Rejected(errors: Errors)
    | Sent(fields: PostFields)
    | SendFailed(fields: PostFields, alert: string)

  /** The fields handed to `onSubmit`, with the button's `published` flag. */
  function ToFields(f: FormInput, published: bool): (r: PostFields)
    ensures r.title == f.title && r.excerpt == f.excerpt && r.content == f.content
    ensures r.slug == f.slug && r.coverImage == f.coverImage && r.published == published
  {
    PostFields(f.title, f.excerpt, f.content, f.slug, f.coverImage, published)
  }

  /** A submit button: the schema gates the call, and a failed `onSubmit`
      turns into an alert. `sent` is the outcome of `onSubmit`. */
  function Submit(f: FormInput, published: bool, isUrl: string -> bool, sent: Outcome<()>): (r: Submission)
    ensures r.Rejected? <==> !Acceptable(f, isUrl)
    ensures r.Rejected? ==> r.errors == Validate(f, isUrl) && !NoErrors(r.errors)
    ensures r.Sent? <==> Acceptable(f, isUrl) && sent.Success?
    ensures r.SendFailed? ==> r.alert == SubmitAlert
    ensures !r.Rejected? ==> r.fields == ToFields(f, published)
    ensures !r.Rejected? ==> r.fields.title == f.title && r.fields.excerpt == f.excerpt && r.fields.content == f.content
    ensures !r.Rejected? ==> r.fields.slug == f.slug && r.fields.coverImage == f.coverImage && r.fields.published == published
  {
    var e := Validate(f, isUrl);
    if !NoErrors(e) then Rejected(e)
    else if sent.Success? then Sent(ToFields(f, published))
    else SendFailed(ToFields(f, published), SubmitAlert)
  }

  /** A slug holding a character outside `[a-z0-9-]` (a capital or a space,
      as in "Hello World!") is refused with the pattern message, and the
      form never reaches `onSubmit`, whatever that call would have done. */
  lemma BadSlugRejected(f: FormInput, published: bool, isUrl: string -> bool, sent: Outcome<()>, i: nat)
    requires i < |f.slug| && !IsSlugChar(f.slug[i])
    ensures SlugError(f.slug) == Some(SlugPattern)
    ensures Submit(f, published, isUrl, sent).Rejected?
    ensures Submit(f, published, isUrl, sent).errors.slug == Some(SlugPattern)
  {
  }

  /** A string none of whose characters survives the first filter has an empty slug. */
  lemma SlugOfNothingKept(title: string)
    requires forall i :: 0 <= i < |title| ==> !Kept(title[i]) && !Text.IsAsciiUpper(title[i])
    ensures Slugify(title) == ""
  {
    Text.LowerKeepsLower(title);
    var kept := StripSpecial(title);
    Seqs.FilterNone(title, (c: char) => Kept(c));
    assert DashSpaces(kept) == "";
    assert SquashDashes("") == "";
  }

  /** Worked example: a title of exclamation marks only (such as "!!!")
      yields an empty slug, which the rule rejects. */
  lemma SlugOfPunctuation(title: string)
    requires forall i :: 0 <= i < |title| ==> title[i] == '!'
    ensures Slugify(title) == ""
    ensures !SlugRule(Slugify(title))
  {
    assert !Kept('!') && !Text.IsAsciiUpper('!');
    SlugOfNothingKept(title);
  }
}

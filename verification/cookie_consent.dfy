/** The cookie banner and its helpers: the preference record whose
    essential flag cannot be switched off, the three ways of answering the
    banner, and the get/has/reset helpers and hook over the browser's
    key-value storage. The storage is an abstract map from keys to records
    (what `JSON.stringify` and the ISO date string would encode), and the
    current time is a parameter. */
module CookieConsent {
  import opened Common

  datatype Prefs = Prefs(essential: bool, functional: bool, analytics: bool, marketing: bool)

  datatype Category = Essential | Functional | Analytics | Marketing

  /** `prefs[type]`. */
  function Field(p: Prefs, c: Category): bool {
    match c
    case Essential => p.essential
    case Functional => p.functional
    case Analytics => p.analytics
    case Marketing => p.marketing
  }

  /** The banner's starting preferences: essential only. */
  const InitialPrefs := Prefs(true, false, false, false)
  const AllAccepted := Prefs(true, true, true, true)
  const EssentialOnly := Prefs(true, false, false, false)

  /** `updatePreference`: the essential category is ignored; any other
      category is set to `value`. */
  function UpdatePreference(p: Prefs, c: Category, value: bool): (r: Prefs)
    ensures c == Essential ==> r == p
    ensures c != Essential ==> Field(r, c) == value
    ensures forall d :: d != c ==> Field(r, d) == Field(p, d)
  {
    match c
    case Essential => p
    case Functional => p.(functional := value)
    case Analytics => p.(analytics := value)
    case Marketing => p.(marketing := value)
  }

  /** A run of checkbox clicks, applied in order. */
  function ApplyUpdates(p: Prefs, updates: seq<(Category, bool)>): Prefs
    decreases |updates|
  {
    if |updates| == 0 then p
    else ApplyUpdates(UpdatePreference(p, updates[0].0, updates[0].1), updates[1..])
  }

  /** No sequence of clicks changes the essential flag; from the starting
      preferences it stays on. */
  lemma {:induction false} EssentialPinned(p: Prefs, updates: seq<(Category, bool)>)
    ensures ApplyUpdates(p, updates).essential == p.essential
    ensures ApplyUpdates(InitialPrefs, updates).essential
    decreases |updates|
  {
    if |updates| > 0 {
      EssentialPinned(UpdatePreference(p, updates[0].0, updates[0].1), updates[1..]);
      EssentialPinned(UpdatePreference(InitialPrefs, updates[0].0, updates[0].1), updates[1..]);
    }
  }

  /* ----- storage ----- */

  const ConsentKey := "cookie-consent"
  const DateKey := "cookie-consent-date"

  /** A stored value: a preference record or a timestamp. */
  datatype Record = ConsentRecord(prefs: Prefs) | DateRecord(stamp: int)

  type Storage = map<string, Record>

  /** Writes the answer and the time it was given. */
  function Save(s: Storage, p: Prefs, now: int): (r: Storage)
    ensures ConsentKey in r && r[ConsentKey] == ConsentRecord(p)
    ensures DateKey in r && r[DateKey] == DateRecord(now)
    ensures forall k :: k in s && k != ConsentKey && k != DateKey ==> k in r && r[k] == s[k]
    ensures forall k :: k in r ==> k in s || k == ConsentKey || k == DateKey
  {
    s[ConsentKey := ConsentRecord(p)][DateKey := DateRecord(now)]
  }

  /** `getCookieConsent`: the stored preferences, if any. */
  function GetConsent(s: Storage): (r: Option<Prefs>)
    ensures r.Some? ==> ConsentKey in s && s[ConsentKey] == ConsentRecord(r.value)
    ensures ConsentKey in s && s[ConsentKey].ConsentRecord? ==> r == Some(s[ConsentKey].prefs)
  {
    if ConsentKey in s && s[ConsentKey].ConsentRecord? then Some(s[ConsentKey].prefs) else None
  }

  /** `hasCookieConsent`: true whenever an answer can be read back, and
      exactly when the banner stays hidden. */
  function HasConsent(s: Storage): (r: bool)
    ensures GetConsent(s).Some? ==> r
    ensures r <==> !Mount(s).visible
  {
    ConsentKey in s
  }

  /** `resetCookieConsent`: removes both keys and nothing else. */
  function ResetConsent(s: Storage): (r: Storage)
    ensures ConsentKey !in r && DateKey !in r
    ensures forall k :: k in s && k != ConsentKey && k != DateKey ==> k in r && r[k] == s[k]
    ensures forall k :: k in r ==> k in s
  {
    s - {ConsentKey, DateKey}
  }

  /* ----- the banner ----- */

  /** The banner's state. */
  datatype Banner = Banner(visible: bool, showDetails: bool, prefs: Prefs)

  /** What the banner tells its owner after an answer. */
  datatype Notice = AcceptedAll | AcceptedSelected(prefs: Prefs) | Rejected

  /** The banner after an answer, the storage, and the callback made. */
  datatype Answer = Answer(banner: Banner, storage: Storage, notice: Notice)

  /** The banner once mounted (and its delay elapsed): shown exactly when no
      answer is stored. */
  function Mount(s: Storage): (b: Banner)
    ensures b.visible <==> ConsentKey !in s
    ensures b.prefs == InitialPrefs && !b.showDetails
  {
    Banner(ConsentKey !in s, false, InitialPrefs)
  }

  /** A checkbox in the details view. */
  function Check(b: Banner, c: Category, value: bool): (r: Banner)
    ensures r.visible == b.visible && r.showDetails == b.showDetails
    ensures r.prefs == UpdatePreference(b.prefs, c, value)
  {
    b.(prefs := UpdatePreference(b.prefs, c, value))
  }

  /** "Configurar": opens the details view. */
  function OpenDetails(b: Banner): (r: Banner)
    ensures r.showDetails
    ensures r.visible == b.visible && r.prefs == b.prefs
  {
    b.(showDetails := true)
  }

  /** "Cerrar": back to the summary view. */
  function CloseDetails(b: Banner): (r: Banner)
    ensures !r.showDetails
    ensures r.visible == b.visible && r.prefs == b.prefs
  {
    b.(showDetails := false)
  }

  /** `handleAcceptAll`. */
  function AcceptAll(b: Banner, s: Storage, now: int): (r: Answer)
    ensures !r.banner.visible && r.notice == AcceptedAll
    ensures r.storage == Save(s, AllAccepted, now)
  {
    Answer(b.(visible := false), Save(s, AllAccepted, now), AcceptedAll)
  }

  /** `handleAcceptSelected`: stores and reports the preferences as they stand. */
  function AcceptSelected(b: Banner, s: Storage, now: int): (r: Answer)
    ensures !r.banner.visible && r.notice == AcceptedSelected(b.prefs)
    ensures r.storage == Save(s, b.prefs, now)
  {
    Answer(b.(visible := false), Save(s, b.prefs, now), AcceptedSelected(b.prefs))
  }

  /** `handleRejectAll`. */
  function RejectAll(b: Banner, s: Storage, now: int): (r: Answer)
    ensures !r.banner.visible && r.notice == Rejected
    ensures r.storage == Save(s, EssentialOnly, now)
  {
    Answer(b.(visible := false), Save(s, EssentialOnly, now), Rejected)
  }

  /* ----- the hook ----- */

  /** `useCookieConsent`'s state. */
  datatype Hook = Hook(consent: Option<Prefs>, hasConsent: bool)

  /** The hook once mounted: it adopts a stored answer if there is one. */
  function HookMount(s: Storage): (h: Hook)
    ensures h.consent == GetConsent(s)
    ensures h.hasConsent <==> GetConsent(s).Some?
  {
    match GetConsent(s)
    case Some(p) => Hook(Some(p), true)
    case None => Hook(None, false)
  }

  /** `updateConsent`. */
  function UpdateConsent(s: Storage, p: Prefs, now: int): (r: (Hook, Storage))
    ensures r.0 == Hook(Some(p), true)
    ensures r.1 == Save(s, p, now)
  {
    (Hook(Some(p), true), Save(s, p, now))
  }

  /** `resetConsent`. */
  function HookReset(s: Storage): (r: (Hook, Storage))
    ensures r.0 == Hook(None, false)
    ensures r.1 == ResetConsent(s)
  {
    (Hook(None, false), ResetConsent(s))
  }

  /* ----- properties ----- */

  /** What is saved is what is read back, and the banner stays hidden on
      the next visit. */
  lemma SaveThenGet(s: Storage, p: Prefs, now: int)
    ensures GetConsent(Save(s, p, now)) == Some(p)
    ensures HasConsent(Save(s, p, now))
    ensures !Mount(Save(s, p, now)).visible
    ensures HookMount(Save(s, p, now)) == Hook(Some(p), true)
  {
  }

  /** After a reset nothing is read back and the banner shows again. */
  lemma ResetThenGet(s: Storage)
    ensures GetConsent(ResetConsent(s)) == None
    ensures !HasConsent(ResetConsent(s))
    ensures Mount(ResetConsent(s)).visible
    ensures HookMount(ResetConsent(s)) == Hook(None, false)
  {
  }

  /** Each answer stores what it promises, keeping essential on; selecting
      stores the checkboxes as they were clicked. */
  lemma AnswersStore(b: Banner, s: Storage, now: int, updates: seq<(Category, bool)>)
    ensures GetConsent(AcceptAll(b, s, now).storage) == Some(AllAccepted)
    ensures GetConsent(RejectAll(b, s, now).storage) == Some(EssentialOnly)
    ensures var clicked := Mount(s).(prefs := ApplyUpdates(InitialPrefs, updates));
            GetConsent(AcceptSelected(clicked, s, now).storage) == Some(clicked.prefs)
            && GetConsent(AcceptSelected(clicked, s, now).storage).value.essential
  {
    EssentialPinned(InitialPrefs, updates);
  }

  /** A record other than preferences under the consent key (the date
      string, say) counts as consent for the presence check and keeps the
      banner hidden, yet reads back as no answer, so the hook mounts empty. */
  lemma ForeignRecordUnderConsentKey(s: Storage)
    requires ConsentKey in s && !s[ConsentKey].ConsentRecord?
    ensures GetConsent(s) == None
    ensures HasConsent(s) && !Mount(s).visible
    ensures HookMount(s) == Hook(None, false)
  {
  }

  /** Opening the details, ticking boxes and closing them again returns to
      the summary view with the ticks kept, as a freshly mounted banner had it. */
  lemma DetailsRoundTrip(s: Storage, c: Category, value: bool)
    ensures var b := Mount(s);
            CloseDetails(Check(OpenDetails(b), c, value)) == b.(prefs := UpdatePreference(b.prefs, c, value))
  {
  }

  /** `hasCookieConsent` agrees with the presence of a readable answer for
      every storage the banner and the hook can produce. */
  lemma HasIffGet(s: Storage)
    requires ConsentKey in s ==> s[ConsentKey].ConsentRecord?
    ensures HasConsent(s) <==> GetConsent(s).Some?
  {
  }
}

/** The business-hours table (`WorkshopSettings.horario_funcionamento`): for each weekday
    key an entry `{ativo, inicio, fim}`. This module holds the table itself, the way the
    settings screen builds and edits it, and the three different ways the scheduling code
    reads a day out of it. */
module BusinessHours {
  import opened Prelude

  /** The day keys 'domingo' … 'sabado'. */
  datatype Weekday = Domingo | Segunda | Terca | Quarta | Quinta | Sexta | Sabado

  /** `daysMap[date.getDay()]`, where day number 0 is a Sunday. */
  function WeekdayOf(day: int): (w: Weekday)
    ensures WeekdayIndex(w) == day % 7
  {
    var i := day % 7;
    if i == 0 then Domingo
    else if i == 1 then Segunda
    else if i == 2 then Terca
    else if i == 3 then Quarta
    else if i == 4 then Quinta
    else if i == 5 then Sexta
    else Sabado
  }

  /** The position of a key in `daysMap`, i.e. its `getDay()` value. */
  function WeekdayIndex(w: Weekday): (i: nat)
    ensures i < 7
  {
    match w
    case Domingo => 0
    case Segunda => 1
    case Terca => 2
    case Quarta => 3
    case Quinta => 4
    case Sexta => 5
    case Sabado => 6
  }

  /** The value of an `<input type="time">`: either '' or a zero-padded "HH:MM",
      the latter kept as its minute count. */
  datatype TimeField = Blank | At(mins: nat)

  datatype DayConfig = DayConfig(ativo: bool, inicio: TimeField, fim: TimeField)

  /** `horario_funcionamento`; an absent table behaves as the empty map. */
  type Hours = map<Weekday, DayConfig>

  /** '08:00' and '18:00', the defaults used wherever a time is missing. */
  const DefaultOpening: nat := 480
  const DefaultClosing: nat := 1080

  /** `field || 'HH:MM'`: the empty string falls back to the default. */
  function OrDefault(t: TimeField, default: nat): nat {
    match t
    case Blank => default
    case At(m) => m
  }

  // ---------------------------------------------------------------------------
  // Reading a day (three readings that differ on a day with no entry)

  /** Agenda segmentation and week columns: `dayConfig?.ativo !== false` — a day
      without an entry is open. */
  predicate OpenForCalendar(h: Hours, w: Weekday) {
    !(w in h && !h[w].ativo)
  }

  /** Booking validation: `dayConfig && !dayConfig.ativo` — only an entry switched off
      closes the day. */
  predicate ClosedForBooking(h: Hours, w: Weekday) {
    w in h && !h[w].ativo
  }

  /** Overflow continuation: `config && config.ativo` — only an entry switched on
      qualifies as the next business day. */
  predicate AcceptsContinuation(h: Hours, w: Weekday) {
    w in h && h[w].ativo
  }

  /** `dayConfig?.inicio || '08:00'` in minutes. */
  function OpeningMinute(h: Hours, w: Weekday): nat {
    if w in h then OrDefault(h[w].inicio, DefaultOpening) else DefaultOpening
  }

  /** `dayConfig?.fim || '18:00'` in minutes. */
  function ClosingMinute(h: Hours, w: Weekday): nat {
    if w in h then OrDefault(h[w].fim, DefaultClosing) else DefaultClosing
  }

  /** The calendar and the closed-day check agree on every day, while the continuation
      scan is stricter exactly on days that have no entry. */
  lemma ReadingsOfADay(h: Hours, w: Weekday)
    ensures ClosedForBooking(h, w) <==> !OpenForCalendar(h, w)
    ensures AcceptsContinuation(h, w) <==> OpenForCalendar(h, w) && w in h
    ensures w !in h ==> OpenForCalendar(h, w) && !AcceptsContinuation(h, w)
  {
  }

  // ---------------------------------------------------------------------------
  // The settings screen

  /** `DAYS`, in the order the screen lists them. */
  const Days: seq<Weekday> := [Segunda, Terca, Quarta, Quinta, Sexta, Sabado, Domingo]

  /** `{ ativo: true, inicio: '08:00', fim: '18:00' }` */
  const DefaultDay: DayConfig := DayConfig(true, At(DefaultOpening), At(DefaultClosing))

  lemma DaysListsEveryWeekdayOnce()
    ensures forall w: Weekday :: w in Days
    ensures forall i, j :: 0 <= i < j < |Days| ==> Days[i] != Days[j]
  {
    forall w: Weekday ensures w in Days {
      match w
      case Segunda => assert Days[0] == w;
      case Terca => assert Days[1] == w;
      case Quarta => assert Days[2] == w;
      case Quinta => assert Days[3] == w;
      case Sexta => assert Days[4] == w;
      case Sabado => assert Days[5] == w;
      case Domingo => assert Days[6] == w;
    }
  }

  /** The table the screen starts from: every key of `DAYS` open 08:00–18:00. */
  function DefaultHours(): (h: Hours)
    ensures forall w: Weekday :: w in h && h[w] == DefaultDay
  {
    DaysListsEveryWeekdayOnce();
    map w | w in Days :: DefaultDay
  }

  /** `{ ...defaultHours, ...(data.horario_funcionamento || {}) }` on load: stored
      entries win, every other day gets the default. */
  function LoadHours(stored: Hours): (h: Hours)
    ensures forall w: Weekday :: w in h
    ensures forall w :: w in stored ==> h[w] == stored[w]
    ensures forall w :: w !in stored ==> h[w] == DefaultDay
  {
    DefaultHours() + stored
  }

  /** What the screen shows for a day: its entry, or a closed day with blank times. */
  function Displayed(h: Hours, w: Weekday): DayConfig {
    if w in h then h[w] else DayConfig(false, Blank, Blank)
  }

  /** The switch of one day: `{ ...dayConfig, ativo: !dayConfig.ativo }`. */
  function ToggleDay(h: Hours, w: Weekday): (r: Hours)
    ensures w in r
    ensures r[w].ativo == !Displayed(h, w).ativo
    ensures r[w].inicio == Displayed(h, w).inicio && r[w].fim == Displayed(h, w).fim
    ensures forall v :: v != w ==> Displayed(r, v) == Displayed(h, v) && (v in r <==> v in h)
  {
    var c := Displayed(h, w);
    h[w := c.(ativo := !c.ativo)]
  }

  /** Editing the opening time of one day. */
  function SetOpening(h: Hours, w: Weekday, t: TimeField): (r: Hours)
    ensures w in r && r[w].inicio == t
    ensures r[w].ativo == Displayed(h, w).ativo && r[w].fim == Displayed(h, w).fim
    ensures forall v :: v != w ==> Displayed(r, v) == Displayed(h, v) && (v in r <==> v in h)
  {
    var c := Displayed(h, w);
    h[w := c.(inicio := t)]
  }

  /** Editing the closing time of one day. */
  function SetClosing(h: Hours, w: Weekday, t: TimeField): (r: Hours)
    ensures w in r && r[w].fim == t
    ensures r[w].ativo == Displayed(h, w).ativo && r[w].inicio == Displayed(h, w).inicio
    ensures forall v :: v != w ==> Displayed(r, v) == Displayed(h, v) && (v in r <==> v in h)
  {
    var c := Displayed(h, w);
    h[w := c.(fim := t)]
  }

  /** Flipping a switch twice shows the same table again, and restores an existing
      entry exactly. */
  lemma ToggleTwice(h: Hours, w: Weekday)
    ensures forall v :: Displayed(ToggleDay(ToggleDay(h, w), w), v) == Displayed(h, v)
    ensures w in h ==> ToggleDay(ToggleDay(h, w), w) == h
  {
    var r := ToggleDay(ToggleDay(h, w), w);
    if w in h {
      assert r.Keys == h.Keys;
    }
  }
}

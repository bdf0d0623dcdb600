/**
 * The file monitor of the newer core (levk/core/src/io/file_monitor.cpp):
 * the status machine `update` runs on each poll. What the filesystem reports
 * on that poll is an `Observation` parameter. The declaring header
 * (levk/core/include/levk/core/io/file_monitor.hpp) is not part of this
 * model, so the initial fields are whatever the caller's `Monitor` holds.
 */
module FileMonitor {
  import opened Wrappers

  datatype Status = UpToDate | Modified | NotFound

  datatype Mode = Timestamp | TextContents | BinaryContents

  /** A file time; 0 is a default-constructed `file_time_type`. */
  type Time = int

  const DefaultTime: Time := 0

  type Byte = x: int | 0 <= x < 256

  /** `m_payload`: the last contents read, as text or as bytes. */
  datatype Payload = Text(text: string) | Bytes(bytes: seq<Byte>)

  datatype Monitor = Monitor(mode: Mode, status: Status, lastWriteTime: Time, lastModifiedTime: Time, payload: Payload)

  /**
   * One poll of the filesystem: whether the path is a regular file, the last
   * write time (`None` when reading it fails) and the contents as text and as
   * bytes (`None` when the read fails).
   */
  datatype Observation = Observation(regular: bool, writeTime: Option<Time>, text: Option<string>, bytes: Option<seq<Byte>>)

  /** In a contents mode: the new contents, if the read succeeded. */
  function Contents(mode: Mode, obs: Observation): Option<Payload> {
    match mode
    case TextContents => if obs.text.Some? then Some(Text(obs.text.value)) else None
    case BinaryContents => if obs.bytes.Some? then Some(Bytes(obs.bytes.value)) else None
    case Timestamp => None
  }

  /** `FileMonitor::update`: the monitor after the poll; its `status` is the return value. */
  function Update(m: Monitor, obs: Observation): (r: Monitor)
    ensures r.mode == m.mode
    ensures !obs.regular ==> r.status == NotFound
    ensures obs.regular && obs.writeTime.None? ==> r == m
    ensures obs.regular && obs.writeTime.Some? && obs.writeTime.value == m.lastWriteTime && m.status != NotFound ==> r == m.(status := UpToDate)
    ensures r.status == Modified && r != m ==> obs.regular && m.lastWriteTime != DefaultTime
    ensures r.lastModifiedTime != m.lastModifiedTime ==> Contents(m.mode, obs).Some? && r.payload == Contents(m.mode, obs).value
  {
    if !obs.regular then m.(status := NotFound)
    else if obs.writeTime.None? then m
    else
      var t := obs.writeTime.value;
      if t != m.lastWriteTime || m.status == NotFound then
        var dirty := m.lastWriteTime != DefaultTime;
        var contents := Contents(m.mode, obs);
        if contents.Some? && contents.value == m.payload then
          m.(lastWriteTime := t, status := UpToDate)
        else if contents.Some? then
          m.(lastWriteTime := t, payload := contents.value, lastModifiedTime := t, status := if dirty then Modified else UpToDate)
        else
          m.(lastWriteTime := t, status := if dirty then Modified else UpToDate)
      else m.(status := UpToDate)
  }

  /** The first sighting of a file (stored time still the default) is never reported as modified. */
  lemma FirstObservationUpToDate(m: Monitor, obs: Observation)
    requires m.lastWriteTime == DefaultTime && obs.regular && obs.writeTime.Some?
    requires obs.writeTime.value != DefaultTime || m.status == NotFound
    ensures Update(m, obs).status == UpToDate
    ensures Update(m, obs).lastWriteTime == obs.writeTime.value
  {
  }

  /** A new timestamp is reported as modified in timestamp mode, once a time has been stored. */
  lemma TimestampChangeModified(m: Monitor, obs: Observation)
    requires m.mode == Timestamp && m.lastWriteTime != DefaultTime
    requires obs.regular && obs.writeTime.Some? && obs.writeTime.value != m.lastWriteTime
    ensures Update(m, obs).status == Modified
  {
  }

  /** In a contents mode, a new timestamp over identical contents is not a modification and stores nothing new. */
  lemma SameContentsSuppress(m: Monitor, obs: Observation)
    requires m.mode != Timestamp && obs.regular && obs.writeTime.Some?
    requires Contents(m.mode, obs) == Some(m.payload)
    ensures Update(m, obs).status == UpToDate
    ensures Update(m, obs).payload == m.payload && Update(m, obs).lastModifiedTime == m.lastModifiedTime
  {
  }

  /** In a contents mode, different contents after a stored time are a modification and are kept. */
  lemma NewContentsModified(m: Monitor, obs: Observation)
    requires m.mode != Timestamp && m.lastWriteTime != DefaultTime
    requires obs.regular && obs.writeTime.Some? && obs.writeTime.value != m.lastWriteTime
    requires Contents(m.mode, obs).Some? && Contents(m.mode, obs).value != m.payload
    ensures Update(m, obs).status == Modified
    ensures Update(m, obs).payload == Contents(m.mode, obs).value
    ensures Update(m, obs).lastModifiedTime == obs.writeTime.value
  {
  }

  /** Polling twice with the same observation: the second poll reports up to date. */
  lemma SecondPollUpToDate(m: Monitor, obs: Observation)
    requires obs.regular && obs.writeTime.Some?
    ensures Update(Update(m, obs), obs).status == UpToDate
  {
  }

  /** A file that reappears after being missing is looked at again even with an unchanged time. */
  lemma ReappearRechecks(m: Monitor, obs: Observation)
    requires m.status == NotFound && m.lastWriteTime != DefaultTime && m.mode == Timestamp
    requires obs.regular && obs.writeTime == Some(m.lastWriteTime)
    ensures Update(m, obs).status == Modified
  {
  }

  /**
   * `text()`: the stored text in text mode. In any other mode `ENSURE` fails
   * (a release build logs and returns ""); the model reports `Fatal`.
   */
  function TextOf(m: Monitor): (r: Result<string>)
    ensures r.Ok? <==> m.mode == TextContents && m.payload.Text?
    ensures r.Ok? ==> r.value == m.payload.text
  {
    if m.mode != TextContents then Fatal("monitor not in text contents mode")
    else if !m.payload.Text? then Fatal("no text read yet")
    else Ok(m.payload.text)
  }

  /** `bytes()`: the stored bytes in binary mode, `Fatal` otherwise. */
  function BytesOf(m: Monitor): (r: Result<seq<Byte>>)
    ensures r.Ok? <==> m.mode == BinaryContents && m.payload.Bytes?
    ensures r.Ok? ==> r.value == m.payload.bytes
  {
    if m.mode != BinaryContents then Fatal("monitor not in binary contents mode")
    else if !m.payload.Bytes? then Fatal("no bytes read yet")
    else Ok(m.payload.bytes)
  }

  /** What a text-mode poll read is what `text()` then returns. */
  lemma UpdateThenText(m: Monitor, obs: Observation)
    requires m.mode == TextContents && obs.regular && obs.writeTime.Some?
    requires obs.writeTime.value != m.lastWriteTime && obs.text.Some?
    ensures TextOf(Update(m, obs)) == Ok(obs.text.value)
  {
  }
}

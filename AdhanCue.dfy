/**
  Which audio file is handed to playback for a prayer. The playback itself
  (loading and starting the mixer) is not part of this model.
 */
module AdhanCue {

  import opened Wrappers
  import opened PrayerTimes

  const FajrCue: string := "fajr_adhan_final.mp3"
  const NormalCue: string := "normal_adhan_final.mp3"

  /** The static prayer-name to audio-file table. */
  const AdhanFiles: map<string, string> := map[
    "Fajr" := FajrCue,
    "Dhuhr" := NormalCue,
    "Asr" := NormalCue,
    "Maghrib" := NormalCue,
    "Isha" := NormalCue
  ]

  /**
    The file played for `name`, or None when the table has no (non-empty) entry for it,
    in which case nothing is played.
   */
  function CueFor(name: string): (r: Option<string>)
    ensures r.Some? <==> name in PrayerOrder
    ensures name == "Fajr" ==> r == Some(FajrCue)
    ensures name in PrayerOrder && name != "Fajr" ==> r == Some(NormalCue)
  {
    if name in AdhanFiles && AdhanFiles[name] != "" then Some(AdhanFiles[name]) else None
  }
}

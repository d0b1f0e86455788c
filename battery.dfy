/** The two battery labels at the top of the panel, refreshed by a timer. */
module Battery {
  import opened Options
  import opened PyStr

  /**
   * What the battery query reports when a battery is present: the charge
   * percentage as Python prints it, and whether the charger is plugged in,
   * which the query leaves None when it cannot tell.
   */
  datatype Reading = Reading(percent: string, powerPlugged: Option<bool>)

  /** The bolt shown after the percentage while charging. */
  const Bolt: string := "⚡"

  /** The health label never varies. */
  const Health: string := "Health: Good"

  /** `is_charging`: only a plugged-in report counts; an unknown plug state shows no bolt. */
  predicate IsCharging(battery: Option<Reading>) {
    battery.Some? && battery.value.powerPlugged == Some(true)
  }

  /** `battery_percentage` as the f-string prints it: `None` without a battery. */
  function PercentText(battery: Option<Reading>): (text: string) {
    if battery.Some? then battery.value.percent else "None"
  }

  /** The text of the percentage label: the percentage, `"% "`, and the bolt while charging. */
  function PercentageLabel(battery: Option<Reading>): (text: string)
    ensures StartsWith(text, PercentText(battery) + "% ")
    ensures EndsWith(text, Bolt) <==> IsCharging(battery)
    ensures battery.None? ==> text == "None% "
  {
    var shown := PercentText(battery) + "% " + (if IsCharging(battery) then Bolt else "");
    assert !IsCharging(battery) ==> shown[|shown| - 1] == ' ';
    shown
  }

  /** The two label texts and whether the timer should fire again. */
  datatype Status = Status(percentage: string, health: string, keepPolling: bool)

  /** `update_battery_status`: both label texts, and a request to keep polling. */
  function UpdateBatteryStatus(battery: Option<Reading>): (s: Status)
    ensures s.keepPolling
    ensures s.health == Health
    ensures s.percentage == PercentageLabel(battery)
  {
    Status(PercentageLabel(battery), Health, true)
  }

  /** Reads a percentage label back: the percentage text, and whether the bolt is shown. */
  function ParsePercentageLabel(text: string): (parsed: Option<(string, bool)>) {
    var charging := EndsWith(text, Bolt);
    var rest := if charging then text[..|text| - |Bolt|] else text;
    if EndsWith(rest, "% ") then Some((rest[..|rest| - 2], charging)) else None
  }

  /** The percentage label loses nothing: both the percentage and the charging state can be read off it. */
  lemma PercentageLabelRoundTrip(battery: Option<Reading>)
    ensures ParsePercentageLabel(PercentageLabel(battery)) == Some((PercentText(battery), IsCharging(battery)))
  {
    var p := PercentText(battery);
    var text := PercentageLabel(battery);
    var rest := p + "% ";
    if IsCharging(battery) {
      assert text[..|text| - |Bolt|] == rest;
    } else {
      assert text == rest;
    }
    assert rest[..|rest| - 2] == p;
  }

  /** Two readings show the same percentage label only if they agree on percentage and charging. */
  lemma PercentageLabelDetermines(a: Option<Reading>, b: Option<Reading>)
    requires PercentageLabel(a) == PercentageLabel(b)
    ensures PercentText(a) == PercentText(b)
    ensures IsCharging(a) == IsCharging(b)
  {
    PercentageLabelRoundTrip(a);
    PercentageLabelRoundTrip(b);
  }
}

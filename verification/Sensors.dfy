/** internal/bridge/sensor.go: the climate accessory, which shows the last value of each reading. */
module Sensors {
  import opened Base
  import opened Openmiio
  import Brushing

  /** None is the library's own initial value. */
  datatype Climate = Climate(temperature: Option<real>, humidity: Option<real>, battery: Option<Brushing.BatteryLevel>)

  function ApplyClimate(c: Climate, u: Update): Climate {
    Climate(if u.temperature.Some? then u.temperature else c.temperature,
            if u.humidity.Some? then u.humidity else c.humidity,
            if u.battery.Some? then Some(Brushing.ShowBattery(u.battery.value)) else c.battery)
  }

  class Sensor {
    var temperature: Option<real>
    var humidity: Option<real>
    var battery: Option<Brushing.BatteryLevel>

    ghost function State(): Climate
      reads this
    {
      Climate(temperature, humidity, battery)
    }

    constructor ()
      ensures State() == Climate(None, None, None)
    {
      temperature, humidity, battery := None, None, None;
    }

    method Apply(update: Update)
      modifies this
      ensures State() == ApplyClimate(old(State()), update)
    {
      if update.temperature.Some? {
        temperature := update.temperature;
      }
      if update.humidity.Some? {
        humidity := update.humidity;
      }
      if update.battery.Some? {
        battery := Some(Brushing.ShowBattery(update.battery.value));
      }
    }
  }

  // ------------------------------------------------------------ over a run

  function ShownAfter(us: seq<Update>): Climate {
    if us == [] then Climate(None, None, None) else ApplyClimate(ShownAfter(us[..|us| - 1]), us[|us| - 1])
  }

  function BatteryShown(u: Update): Option<Brushing.BatteryLevel> {
    if u.battery.Some? then Some(Brushing.BatteryLevel(u.battery.value, u.battery.value <= 20)) else None
  }

  /** Each reading shown is that of the last report that brought one, whatever else came with it or since. */
  lemma {:induction false} ShowsLast(us: seq<Update>)
    ensures FromLast(us, (u: Update) => u.temperature, None, ShownAfter(us).temperature)
    ensures FromLast(us, (u: Update) => u.humidity, None, ShownAfter(us).humidity)
    ensures FromLast(us, BatteryShown, None, ShownAfter(us).battery)
  {
    if us == [] {
    } else {
      var before, last := us[..|us| - 1], us[|us| - 1];
      ShowsLast(before);
      assert us == before + [last];
      FromLastSnoc(before, last, (u: Update) => u.temperature, None, ShownAfter(before).temperature);
      FromLastSnoc(before, last, (u: Update) => u.humidity, None, ShownAfter(before).humidity);
      FromLastSnoc(before, last, BatteryShown, None, ShownAfter(before).battery);
    }
  }
}

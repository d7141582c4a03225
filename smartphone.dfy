/** A smartphone and a gaming phone.  Both keep a battery level that `charge`
    raises, capped at 100; the gaming phone's `play_game` takes 20 off when
    more than 20 is left and otherwise refuses.  Calls never change a phone.
    The gaming phone inherits from the smartphone in the source; here it is
    a class of its own with the same fields, the same `Charge`, and the
    cooling system besides. */
module Smartphones {
  import opened PyText

  const FullBattery: int := 100
  const GameCost: int := 20

  /** What each method returns, with the values it interpolates. */
  datatype Reply =
    | Calling(number: string, model: string)
    | GamingCall(number: string, model: string)
    | Charged(model: string, level: int)
    | Playing(game: string, model: string, level: int)
    | BatteryTooLow(game: string)

  /** The text of a reply, emoji included. */
  function Text(reply: Reply): string
  {
    match reply
    case Calling(number, model) =>
      "\U{1F4DE} Calling " + number + " from " + model + "..."
    case GamingCall(number, model) =>
      "\U{1F4DE} Calling " + number + " with Gaming Mode ON \U{1F3AE} using " + model + "!"
    case Charged(model, level) =>
      "\U{1F50B} " + model + " charged to " + IntToString(level) + "%"
    case Playing(game, model, level) =>
      "\U{1F3AE} Playing " + game + " on " + model + "... Battery now " + IntToString(level) + "%"
    case BatteryTooLow(game) =>
      "\U{26A0}\U{FE0F} Battery too low to play " + game + "!"
  }

  /** The level after charging by `amount`: the sum, but never above 100.
      There is no lower cap, so a negative amount can go below 0. */
  function ChargedLevel(battery: int, amount: int): (level: int)
    ensures level <= FullBattery
    ensures level <= battery + amount
    ensures level == battery + amount || level == FullBattery
  {
    if battery + amount > FullBattery then FullBattery else battery + amount
  }

  /** The level after asking to play: 20 less when more than 20 is left, and
      unchanged otherwise, so a game never takes the level to 0 or below. */
  function PlayedLevel(battery: int): (level: int)
    ensures battery > GameCost ==> level == battery - GameCost && level > 0
    ensures battery <= GameCost ==> level == battery
  {
    if battery > GameCost then battery - GameCost else battery
  }

  class Smartphone {
    var brand: string
    var model: string
    var storage: string
    var battery: int

    constructor (brand: string, model: string, storage: string, battery: int)
      ensures this.brand == brand && this.model == model
      ensures this.storage == storage && this.battery == battery
    {
      this.brand := brand;
      this.model := model;
      this.storage := storage;
      this.battery := battery;
    }

    /** Reads the phone and changes nothing. */
    method Call(number: string) returns (reply: Reply)
      ensures reply == Calling(number, model)
    {
      reply := Calling(number, model);
    }

    /** Adds `amount` to the battery, then caps it at 100; only the battery
        changes. */
    method Charge(amount: int) returns (reply: Reply)
      modifies this`battery
      ensures battery == ChargedLevel(old(battery), amount)
      ensures reply == Charged(model, battery)
    {
      battery := battery + amount;
      if battery > FullBattery {
        battery := FullBattery;
      }
      reply := Charged(model, battery);
    }
  }

  class GamingPhone {
    var brand: string
    var model: string
    var storage: string
    var battery: int
    var coolingSystem: string

    constructor (brand: string, model: string, storage: string, battery: int, coolingSystem: string)
      ensures this.brand == brand && this.model == model
      ensures this.storage == storage && this.battery == battery
      ensures this.coolingSystem == coolingSystem
    {
      this.brand := brand;
      this.model := model;
      this.storage := storage;
      this.battery := battery;
      this.coolingSystem := coolingSystem;
    }

    /** The overriding call: another reply, and still no change. */
    method Call(number: string) returns (reply: Reply)
      ensures reply == GamingCall(number, model)
    {
      reply := GamingCall(number, model);
    }

    /** The inherited charge. */
    method Charge(amount: int) returns (reply: Reply)
      modifies this`battery
      ensures battery == ChargedLevel(old(battery), amount)
      ensures reply == Charged(model, battery)
    {
      battery := battery + amount;
      if battery > FullBattery {
        battery := FullBattery;
      }
      reply := Charged(model, battery);
    }

    /** Plays when more than 20 is left, taking 20 off; otherwise warns and
        leaves the battery as it was.  Only the battery changes. */
    method PlayGame(game: string) returns (reply: Reply)
      modifies this`battery
      ensures battery == PlayedLevel(old(battery))
      ensures old(battery) > GameCost ==> reply == Playing(game, model, battery)
      ensures old(battery) <= GameCost ==> reply == BatteryTooLow(game)
    {
      if battery > GameCost {
        battery := battery - GameCost;
        reply := Playing(game, model, battery);
      } else {
        reply := BatteryTooLow(game);
      }
    }
  }

  /** A sequence of battery-changing calls on a gaming phone. */
  datatype Action = Charge(amount: int) | PlayGame

  /** The battery level after the calls in `actions`, in order. */
  function BatteryAfter(battery: int, actions: seq<Action>): int
    decreases |actions|
  {
    if actions == [] then battery
    else
      var next := match actions[0]
        case Charge(amount) => ChargedLevel(battery, amount)
        case PlayGame => PlayedLevel(battery);
      BatteryAfter(next, actions[1..])
  }

  /** A battery at or below 100 stays at or below 100, whatever is done. */
  lemma {:induction false} BatteryNeverAboveFull(battery: int, actions: seq<Action>)
    requires battery <= FullBattery
    ensures BatteryAfter(battery, actions) <= FullBattery
    decreases |actions|
  {
    if actions != [] {
      var next := match actions[0]
        case Charge(amount) => ChargedLevel(battery, amount)
        case PlayGame => PlayedLevel(battery);
      BatteryNeverAboveFull(next, actions[1..]);
    }
  }

  /** With no negative charge, a battery that starts in 0..100 stays in 0..100. */
  lemma {:induction false} BatteryStaysInRange(battery: int, actions: seq<Action>)
    requires 0 <= battery <= FullBattery
    requires forall i :: 0 <= i < |actions| && actions[i].Charge? ==> actions[i].amount >= 0
    ensures 0 <= BatteryAfter(battery, actions) <= FullBattery
    decreases |actions|
  {
    if actions != [] {
      var next := match actions[0]
        case Charge(amount) => ChargedLevel(battery, amount)
        case PlayGame => PlayedLevel(battery);
      assert forall i :: 0 <= i < |actions| - 1 && actions[1..][i].Charge? ==> actions[1..][i].amount >= 0 by {
        forall i | 0 <= i < |actions| - 1 && actions[1..][i].Charge? ensures actions[1..][i].amount >= 0 {
          assert actions[1..][i] == actions[i + 1];
        }
      }
      BatteryStaysInRange(next, actions[1..]);
    }
  }

  /** A negative charge is not refused: it can empty the battery below 0. */
  lemma NegativeChargeGoesBelowZero()
    ensures ChargedLevel(10, -30) == -20
  {
  }

  /** The script's own calls, with the replies it prints; the text of each
      is in `CallText`, `FirstChargeText`, `GamingCallText`, `PlayingText`
      and `SecondChargeText`. */
  method UsageExample() returns (replies: seq<Reply>)
    ensures replies == [
      Calling("+254730456789", "Galaxy S23"),
      Charged("Galaxy S23", 85),
      GamingCall("+233730456789", "ROG Phone 7"),
      Playing("Call of Duty Advanced Warfare", "ROG Phone 7", 70),
      Charged("ROG Phone 7", 85)
    ]
  {
    var phone1 := new Smartphone("Samsung", "Galaxy S23", "256GB", 75);
    var gamingPhone := new GamingPhone("Asus", "ROG Phone 7", "512GB", 90, "Advanced Cooling");
    var r1 := phone1.Call("+254730456789");
    var r2 := phone1.Charge(10);
    var r3 := gamingPhone.Call("+233730456789");
    var r4 := gamingPhone.PlayGame("Call of Duty Advanced Warfare");
    var r5 := gamingPhone.Charge(15);
    replies := [r1, r2, r3, r4, r5];
  }

  /** `str` of the two levels the script prints. */
  lemma LevelTexts()
    ensures IntToString(85) == "85" && IntToString(70) == "70"
  {
    assert NatToString(8) == "8";
    assert NatToString(7) == "7";
  }

  /** The printed text of the script's first call. */
  lemma CallText()
    ensures Text(Calling("+254730456789", "Galaxy S23")) == "\U{1F4DE} Calling +254730456789 from Galaxy S23..."
  {
  }

  /** The printed text of the first charge. */
  lemma FirstChargeText()
    ensures Text(Charged("Galaxy S23", 85)) == "\U{1F50B} Galaxy S23 charged to 85%"
  {
    LevelTexts();
  }

  /** The printed text of the gaming phone's call. */
  lemma GamingCallText()
    ensures Text(GamingCall("+233730456789", "ROG Phone 7")) == "\U{1F4DE} Calling +233730456789 with Gaming Mode ON \U{1F3AE} using ROG Phone 7!"
  {
    GamingCallNumber();
    GamingCallMode();
    GamingCallModel();
  }

  /** The call text up to the number. */
  lemma GamingCallNumber()
    ensures "\U{1F4DE} Calling " + "+233730456789" == "\U{1F4DE} Calling +233730456789"
  {
  }

  /** The call text up to the model. */
  lemma GamingCallMode()
    ensures "\U{1F4DE} Calling +233730456789" + " with Gaming Mode ON \U{1F3AE} using "
      == "\U{1F4DE} Calling +233730456789 with Gaming Mode ON \U{1F3AE} using "
  {
  }

  /** The whole call text. */
  lemma GamingCallModel()
    ensures "\U{1F4DE} Calling +233730456789 with Gaming Mode ON \U{1F3AE} using " + "ROG Phone 7" + "!"
      == "\U{1F4DE} Calling +233730456789 with Gaming Mode ON \U{1F3AE} using ROG Phone 7!"
  {
  }

  /** The printed text of the game. */
  lemma PlayingText()
    ensures Text(Playing("Call of Duty Advanced Warfare", "ROG Phone 7", 70)) == "\U{1F3AE} Playing Call of Duty Advanced Warfare on ROG Phone 7... Battery now 70%"
  {
    LevelTexts();
    PlayingGame();
    PlayingModel();
    PlayingLevel();
  }

  /** The game text up to the game. */
  lemma PlayingGame()
    ensures "\U{1F3AE} Playing " + "Call of Duty Advanced Warfare" == "\U{1F3AE} Playing Call of Duty Advanced Warfare"
  {
  }

  /** The game text up to the model. */
  lemma PlayingModel()
    ensures "\U{1F3AE} Playing Call of Duty Advanced Warfare" + " on " + "ROG Phone 7"
      == "\U{1F3AE} Playing Call of Duty Advanced Warfare on ROG Phone 7"
  {
  }

  /** The whole game text. */
  lemma PlayingLevel()
    ensures "\U{1F3AE} Playing Call of Duty Advanced Warfare on ROG Phone 7" + "... Battery now " + "70" + "%"
      == "\U{1F3AE} Playing Call of Duty Advanced Warfare on ROG Phone 7... Battery now 70%"
  {
  }

  /** The warning printed when the battery is too low, for a game the script
      does not play. */
  lemma WarningText()
    ensures Text(BatteryTooLow("Chess")) == "\U{26A0}\U{FE0F} Battery too low to play Chess!"
  {
  }

  /** The printed text of the second charge. */
  lemma SecondChargeText()
    ensures Text(Charged("ROG Phone 7", 85)) == "\U{1F50B} ROG Phone 7 charged to 85%"
  {
    LevelTexts();
  }

}

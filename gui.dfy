// The parts of the desktop front end that decide something: the directory
// labels of the settings tab, the "Update ..." callbacks that accept or
// reject a setting typed into a text box, and the Smooth / Reduce / Revert /
// Open / Close button protocol that guards the loaded volume.
module Gui {
  import opened Wrappers
  import opened PyStr
  import opened DicomVolume

  // ----- directory labels -----

  /** Python's `' ' * n`: n spaces, none when n <= 0. */
  function Spaces(n: int): (r: string)
    ensures |r| == if n <= 0 then 0 else n
    ensures forall i | 0 <= i < |r| :: r[i] == ' '
  {
    if n <= 0 then "" else seq(n, i => ' ')
  }

  /** normalize_directory: a 30-character label, the directory between quotes,
      padded with spaces, or its last 25 characters after "..." when it is
      25 characters or longer. */
  function NormalizeDirectory(directory: string): (shown: string)
    ensures |shown| == 30
  {
    if |directory| >= 25 then "\"..." + Slice(directory, -25, |directory|) + "\""
    else "\"" + directory + "\"" + Spaces(28 - |directory|)
  }

  /** What a label shows: a short directory in full followed by blanks, a
      long one by its last 25 characters, marked as cut with "...". */
  lemma NormalizeDirectoryShows(directory: string)
    ensures var shown := NormalizeDirectory(directory);
      shown[0] == '"' &&
      (|directory| < 25 ==>
        shown[1..|directory| + 1] == directory && shown[|directory| + 1] == '"' &&
        forall i | |directory| + 2 <= i < 30 :: shown[i] == ' ') &&
      (|directory| >= 25 ==>
        shown[1..4] == "..." && shown[4..29] == directory[|directory| - 25..] && shown[29] == '"')
  {
    var shown := NormalizeDirectory(directory);
    var n := |directory|;
    if n < 25 {
      var pad := Spaces(28 - n);
      assert shown == "\"" + directory + "\"" + pad;
      forall i | n + 2 <= i < 30 ensures shown[i] == ' ' {
        assert shown[i] == pad[i - n - 2];
      }
    } else {
      var tail := Slice(directory, -25, n);
      assert tail == directory[n - 25..];
      assert shown == "\"..." + tail + "\"";
    }
  }

  /** Two different directories shorter than 25 characters never share a label. */
  lemma NormalizeDirectoryDistinguishes(d1: string, d2: string)
    requires |d1| < 25 && |d2| < 25 && d1 != d2
    ensures NormalizeDirectory(d1) != NormalizeDirectory(d2)
  {
    var s1, s2 := NormalizeDirectory(d1), NormalizeDirectory(d2);
    NormalizeDirectoryShows(d1);
    NormalizeDirectoryShows(d2);
    if |d1| == |d2| {
      assert s1[1..|d1| + 1] != s2[1..|d2| + 1];
    } else if |d1| < |d2| {
      assert s2[|d2| + 1] == '"' && s1[|d2| + 1] == ' ';
    } else {
      assert s1[|d1| + 1] == '"' && s2[|d1| + 1] == ' ';
    }
  }

  /** Directories of 25 characters or more that end alike share a label. */
  lemma NormalizeDirectoryKeepsEnd(d1: string, d2: string)
    requires |d1| >= 25 && |d2| >= 25 && d1[|d1| - 25..] == d2[|d2| - 25..]
    ensures NormalizeDirectory(d1) == NormalizeDirectory(d2)
  {
    assert Slice(d1, -25, |d1|) == d1[|d1| - 25..];
    assert Slice(d2, -25, |d2|) == d2[|d2| - 25..];
  }

  // ----- settings typed into a text box -----

  /** The integer settings of config.json that the callbacks read and write. */
  type Config = map<string, int>

  /** An exception a callback raises. */
  datatype GuiError = KeyError(key: string) | AttributeError(name: string)

  /** What pressing an "Update" button leaves behind: the stored settings, the
      text in the box, and the exception raised, if any. */
  datatype Outcome = Outcome(config: Config, text: string, raised: Option<GuiError>)

  /** `text.isdigit() and int(text) > 0 and int(text) < limit`. */
  predicate Accepts(text: string, limit: int)
  {
    IsDigits(text) && 0 < DecimalValue(text) < limit
  }

  /** edit_config_file: a key the file lacks raises KeyError and changes nothing. */
  function EditConfig(config: Config, key: string, value: int, text: string): Outcome
  {
    if key in config then Outcome(config[key := value], text, None)
    else Outcome(config, text, Some(KeyError(key)))
  }

  /** The rejecting branch: the box is cleared, then refilled with `str` of the
      stored setting; a missing key raises KeyError with the box left empty. */
  function Restore(config: Config, key: string): Outcome
  {
    if key in config then Outcome(config, Str(config[key]), None)
    else Outcome(config, "", Some(KeyError(key)))
  }

  /** A callback guarding `key` with the range 1 .. limit - 1. */
  function ChangeSetting(config: Config, text: string, key: string, limit: int): Outcome
  {
    if Accepts(text, limit) then EditConfig(config, key, DecimalValue(text), text)
    else Restore(config, key)
  }

  /** change_crop_size_callback: crop amounts 1 .. 99. */
  function ChangeCropSize(config: Config, text: string): (o: Outcome)
    ensures o.config.Keys == config.Keys && forall k | k in config && k != "crop_amount" :: o.config[k] == config[k]
    ensures "crop_amount" in config && Accepts(text, 100) ==> 0 < o.config["crop_amount"] < 100 && o.config["crop_amount"] == DecimalValue(text)
    ensures !Accepts(text, 100) ==> o.config == config
    ensures o.raised.Some? <==> "crop_amount" !in config
  {
    ChangeSetting(config, text, "crop_amount", 100)
  }

  /** change_fov_radius_callback: field-of-view radii 1 .. 99. */
  function ChangeFovRadius(config: Config, text: string): (o: Outcome)
    ensures o.config.Keys == config.Keys && forall k | k in config && k != "fov_radius" :: o.config[k] == config[k]
    ensures "fov_radius" in config && Accepts(text, 100) ==> 0 < o.config["fov_radius"] < 100 && o.config["fov_radius"] == DecimalValue(text)
    ensures !Accepts(text, 100) ==> o.config == config
    ensures o.raised.Some? <==> "fov_radius" !in config
  {
    ChangeSetting(config, text, "fov_radius", 100)
  }

  /** change_step as written: an accepted step is stored under "crop", and a
      rejected one raises AttributeError before the box is touched. */
  function ChangeStepAsWritten(config: Config, text: string): (o: Outcome)
    ensures o.text == text
    ensures o.raised.None? <==> Accepts(text, 40) && "crop" in config
    ensures o.config.Keys == config.Keys
    ensures Accepts(text, 40) && "crop" in config ==> o.config == config["crop" := DecimalValue(text)]
    ensures !(Accepts(text, 40) && "crop" in config) ==> o.config == config
  {
    if Accepts(text, 40) then EditConfig(config, "crop", DecimalValue(text), text)
    else Outcome(config, text, Some(AttributeError("step_size")))
  }

  /** change_step as intended: steps 1 .. 39 stored under "step", the box
      restored from "step" otherwise. */
  function ChangeStep(config: Config, text: string): Outcome
  {
    ChangeSetting(config, text, "step", 40)
  }

  /** Accepted text is what `int()` reads without raising, and in range. */
  lemma AcceptedValue(text: string, limit: int)
    requires Accepts(text, limit)
    ensures PyInt(text) == Some(DecimalValue(text))
    ensures 0 < DecimalValue(text) < limit
  {
    PyIntOfDigits(text);
  }

  /** Every value in range is accepted when written back with `str`. */
  lemma AcceptsStr(n: int, limit: int)
    requires 0 < n < limit
    ensures Accepts(Str(n), limit) && DecimalValue(Str(n)) == n
  {
    NatStrRoundTrip(n);
  }

  /** A callback changes at most its own key, and only to an accepted value;
      it raises exactly when the key is missing from the file. */
  lemma ChangeSettingStores(config: Config, text: string, key: string, limit: int)
    ensures var o := ChangeSetting(config, text, key, limit);
      o.config.Keys == config.Keys &&
      (forall k | k in config && k != key :: o.config[k] == config[k]) &&
      (o.raised.Some? <==> key !in config) &&
      (key in config && Accepts(text, limit) ==> o.config[key] == DecimalValue(text)) &&
      (!Accepts(text, limit) ==> o.config == config)
  {
  }

  /** Once the stored value is in range it stays in range, and after every
      press the box shows exactly the stored value. */
  lemma ChangeSettingShowsStored(config: Config, text: string, key: string, limit: int)
    requires key in config && 0 < config[key] < limit
    ensures var o := ChangeSetting(config, text, key, limit);
      key in o.config && 0 < o.config[key] < limit &&
      Accepts(o.text, limit) && DecimalValue(o.text) == o.config[key]
  {
    if !Accepts(text, limit) {
      AcceptsStr(config[key], limit);
    }
  }

  /** Pressing the same button again changes nothing. */
  lemma ChangeSettingIdempotent(config: Config, text: string, key: string, limit: int)
    requires key in config && 0 < config[key] < limit
    ensures var o := ChangeSetting(config, text, key, limit);
      ChangeSetting(o.config, o.text, key, limit) == o
  {
    var o := ChangeSetting(config, text, key, limit);
    ChangeSettingShowsStored(config, text, key, limit);
    assert o.config[key := DecimalValue(o.text)] == o.config;
  }

  /** As written, change_step never changes the stored step, whatever is typed. */
  lemma ChangeStepAsWrittenIgnoresStep(config: Config, text: string)
    requires "step" in config
    ensures var o := ChangeStepAsWritten(config, text);
      "step" in o.config && o.config["step"] == config["step"]
  {
  }

  /** Typing 5 with step 2 stored: the input is accepted, yet the step stays 2
      and, with no "crop" key in the file, KeyError is raised; typing "x"
      raises AttributeError and leaves "x" in the box. */
  lemma ChangeStepAsWrittenCounterexample()
    ensures var config := map["step" := 2, "crop_amount" := 44];
      Accepts("5", 40) &&
      ChangeStepAsWritten(config, "5") == Outcome(config, "5", Some(KeyError("crop"))) &&
      ChangeStepAsWritten(config, "x") == Outcome(config, "x", Some(AttributeError("step_size")))
  {
    assert DecimalValue("5") == 5 by {
      assert "5"[..0] == "";
    }
  }

  /** As intended, change_step stores an accepted step under "step" and restores
      the box from "step" otherwise: for the same inputs the step becomes 5,
      and "x" is replaced by "2". */
  lemma ChangeStepStores()
    ensures var config := map["step" := 2, "crop_amount" := 44];
      ChangeStep(config, "5") == Outcome(config["step" := 5], "5", None) &&
      ChangeStep(config, "x") == Outcome(config, "2", None)
  {
    assert DecimalValue("5") == 5 by {
      assert "5"[..0] == "";
    }
    assert Str(2) == "2";
  }

  // ----- the image buttons -----

  /** The pixel data handed to fit_dicom_image: a volume, or an array of some
      other number of dimensions. */
  datatype PixelArray = Cube(volume: Volume) | OtherRank

  /** The enabled state of each button ("normal" is true, "disabled" false). */
  datatype Buttons = Buttons(
    open: bool, save: bool, close: bool,
    smooth: bool, reduce: bool, revert: bool,
    left: bool, right: bool, select: bool,
    uniformity: bool, draw: bool)

  /** Everything the button callbacks read or write: the displayed volume,
      the volume as opened, the buttons, the selected layer and the list of
      layer names the Left and Right callbacks compare against (the combo box
      widget keeps the list it was built with). */
  datatype Screen = Screen(
    current: Option<Volume>, original: Option<Volume>,
    buttons: Buttons, layer: string, choices: seq<string>)

  /** A button press, or a file dropped or picked; Reduce carries the configured
      crop amount and Smooth the configured convolution of one slice. */
  datatype Event = Open(pixels: PixelArray) | Smooth(kernel: Image -> Image) | Reduce(amount: int) | Revert | Close

  /** Only Open is enabled and the layer list is empty: the state after Close. */
  function Idle(): Screen
  {
    Screen(None, None, Buttons(true, false, false, false, false, false, false, false, false, false, false), "", [])
  }

  /** `[str(i) for i in range(1, n + 1)]`. */
  function LayerNames(n: int): (names: seq<string>)
    ensures |names| == if n <= 0 then 0 else n
    ensures forall i | 0 <= i < |names| :: names[i] == Str(i + 1)
  {
    if n <= 0 then [] else seq(n, i requires 0 <= i < n => Str(i + 1))
  }

  /** The state after one event. */
  function Next(s: Screen, e: Event): (n: Screen)
    ensures (e.Smooth? && !s.buttons.smooth) || (e.Reduce? && !s.buttons.reduce) || (e.Revert? && !s.buttons.revert) ==> n == s
    ensures !e.Open? && !e.Close? ==> n.original == s.original
    ensures e.Open? && e.pixels.Cube? ==> n.current == n.original == Some(e.pixels.volume)
    ensures e.Revert? && s.buttons.revert ==> n.current == s.original
    ensures e.Close? ==> n == Idle()
  {
    match e
    case Open(pixels) =>
      (match pixels
       case OtherRank => s.(current := None)
       case Cube(v) =>
         Screen(Some(v), Some(v),
           s.buttons.(right := true, select := true, open := false, save := true, close := true,
                      smooth := true, uniformity := true, draw := true),
           "1", LayerNames(|v|)))
    case Smooth(kernel) =>
      if !s.buttons.smooth || s.current.None? then s
      else s.(current := Some(Smoothed(s.current.value, kernel)),
              buttons := s.buttons.(smooth := false, reduce := true, revert := true))
    case Reduce(amount) =>
      if !s.buttons.reduce || s.current.None? then s
      else s.(current := Some(Crop(s.current.value, amount)),
              buttons := s.buttons.(reduce := false, smooth := false, revert := true, left := false),
              layer := "1", choices := LayerNames(amount - 2))
    case Revert =>
      if !s.buttons.revert then s
      else s.(current := s.original, buttons := s.buttons.(reduce := false, smooth := true, revert := false))
    case Close => Idle()
  }

  /** Smooth and Reduce with no volume loaded fail in `array.shape` (AttributeError on None) before changing anything. */
  predicate Raises(s: Screen, e: Event)
  {
    ((e.Smooth? && s.buttons.smooth) || (e.Reduce? && s.buttons.reduce)) && s.current.None?
  }

  /** The state after a sequence of events. */
  function Run(s: Screen, es: seq<Event>): Screen
    decreases |es|
  {
    if es == [] then s else Run(Next(s, es[0]), es[1..])
  }

  /** What every reachable state satisfies:
      - Open is enabled exactly when no volume has been opened;
      - Smooth, Reduce and Revert are enabled only with a volume opened;
      - Reduce is enabled only together with Revert;
      - with a volume opened, Smooth or Revert is always enabled;
      - while Revert is disabled the display shows the volume as opened (or nothing). */
  ghost predicate Consistent(s: Screen)
  {
    (s.buttons.open <==> s.original.None?) &&
    ((s.buttons.smooth || s.buttons.reduce || s.buttons.revert) ==> s.original.Some?) &&
    (s.buttons.reduce ==> s.buttons.revert) &&
    (s.original.Some? ==> s.buttons.smooth || s.buttons.revert) &&
    (!s.buttons.revert ==> s.current == s.original || s.current.None?)
  }

  lemma IdleConsistent()
    ensures Consistent(Idle())
    ensures Idle().buttons.open && !Idle().buttons.smooth && !Idle().buttons.reduce && !Idle().buttons.revert
  {
  }

  /** Every event keeps the state consistent. */
  lemma NextConsistent(s: Screen, e: Event)
    requires Consistent(s)
    ensures Consistent(Next(s, e))
  {
  }

  /** Any sequence of events from a consistent state keeps it consistent. */
  lemma {:induction false} RunConsistent(s: Screen, es: seq<Event>)
    requires Consistent(s)
    ensures Consistent(Run(s, es))
    decreases |es|
  {
    if es != [] {
      NextConsistent(s, es[0]);
      RunConsistent(Next(s, es[0]), es[1..]);
    }
  }

  /** Smooth works once: a second Smooth before Revert is ignored. */
  lemma SmoothOnce(s: Screen, k1: Image -> Image, k2: Image -> Image)
    ensures Next(Next(s, Smooth(k1)), Smooth(k2)) == Next(s, Smooth(k1))
  {
  }

  /** Reduce works once, and after it Smooth is ignored. */
  lemma ReduceLast(s: Screen, a1: int, a2: int, k: Image -> Image)
    requires s.buttons.reduce && s.current.Some?
    ensures var t := Next(s, Reduce(a1));
      !t.buttons.smooth && !t.buttons.reduce && t.buttons.revert && t.layer == "1" &&
      Next(t, Reduce(a2)) == t && Next(t, Smooth(k)) == t
  {
  }

  /** On a freshly opened volume Reduce is ignored until Smooth has run. */
  lemma ReduceNeedsSmooth(s: Screen, v: Volume, a: int)
    requires Consistent(s) && !s.buttons.reduce
    ensures var t := Next(s, Open(Cube(v)));
      Next(t, Reduce(a)) == t
  {
  }

  /** Revert brings back the volume as opened and re-enables only Smooth of the three. */
  lemma RevertRestores(s: Screen)
    requires Consistent(s) && s.buttons.revert
    ensures var t := Next(s, Revert);
      t.current == s.original && t.current.Some? && t.original == s.original &&
      t.buttons.smooth && !t.buttons.reduce && !t.buttons.revert
  {
  }

  /** The full protocol on an opened volume: smooth, reduce and revert show the
      smoothed volume, its central cube, and the volume as opened. */
  lemma {:induction false} SmoothReduceRevert(s: Screen, v: Volume, k: Image -> Image, a: int)
    requires Consistent(s)
    ensures var loaded := Next(s, Open(Cube(v)));
      var smoothed := Next(loaded, Smooth(k));
      var reduced := Next(smoothed, Reduce(a));
      smoothed.current == Some(Smoothed(v, k)) &&
      reduced.current == Some(Crop(Smoothed(v, k), a)) &&
      Run(loaded, [Smooth(k), Reduce(a), Revert]).current == Some(v)
  {
    var loaded := Next(s, Open(Cube(v)));
    var smoothed := Next(loaded, Smooth(k));
    var reduced := Next(smoothed, Reduce(a));
    var es := [Smooth(k), Reduce(a), Revert];
    assert es[1..] == [Reduce(a), Revert] && es[1..][1..] == [Revert] && es[1..][1..][1..] == [];
    assert Run(loaded, es) == Run(smoothed, [Reduce(a), Revert]);
    assert Run(smoothed, [Reduce(a), Revert]) == Run(reduced, [Revert]);
    assert Run(reduced, [Revert]) == Next(reduced, Revert);
  }

  /** Close forgets the volume from any state. */
  lemma CloseForgets(s: Screen)
    ensures Next(s, Close).current.None? && Next(s, Close).original.None? && Next(s, Close) == Idle()
  {
  }

  /** The main window's image state, updated in place by the button callbacks. */
  class MainWindow {
    var current: Option<Volume>
    var original: Option<Volume>
    var buttons: Buttons
    var layer: string
    var choices: seq<string>

    function State(): Screen
      reads this
    {
      Screen(current, original, buttons, layer, choices)
    }

    /** The window as __init__ leaves it: only Open enabled, and the layer
      list "1" to "39" it starts with. */
    constructor()
      ensures State() == Idle().(choices := LayerNames(39))
      ensures Consistent(State())
    {
      current, original := None, None;
      buttons := Buttons(true, false, false, false, false, false, false, false, false, false, false);
      layer, choices := "", LayerNames(39);
    }

    /** fit_dicom_image, after the file has been read. */
    method FitDicomImage(pixels: PixelArray)
      modifies this
      ensures State() == Next(old(State()), Open(pixels))
    {
      match pixels {
        case OtherRank =>
          current := None;
        case Cube(v) =>
          current := Some(v);
          original := current;
          choices := LayerNames(|v|);
          buttons := buttons.(right := true, select := true);
          layer := "1";
          buttons := buttons.(open := false, save := true, close := true, smooth := true);
          buttons := buttons.(uniformity := true, draw := true);
      }
    }

    /** apply_convolution (the Smooth button). */
    method ApplyConvolution(kernel: Image -> Image) returns (raised: bool)
      modifies this
      ensures State() == Next(old(State()), Smooth(kernel))
      ensures raised == Raises(old(State()), Smooth(kernel))
    {
      raised := false;
      if !buttons.smooth {
        return;
      }
      if current.None? {
        raised := true;
        return;
      }
      var out := DicomVolume.ApplyConvolution(current.value, kernel);
      current := Some(out);
      buttons := buttons.(smooth := false, reduce := true, revert := true);
    }

    /** reduce_image (the Reduce button), with the configured crop amount. */
    method ReduceImage(amount: int) returns (raised: bool)
      modifies this
      ensures State() == Next(old(State()), Reduce(amount))
      ensures raised == Raises(old(State()), Reduce(amount))
    {
      raised := false;
      if !buttons.reduce {
        return;
      }
      if current.None? {
        raised := true;
        return;
      }
      current := Some(Crop(current.value, amount));
      buttons := buttons.(reduce := false, smooth := false, revert := true, left := false);
      layer, choices := "1", LayerNames(amount - 2);
    }

    /** revert_changes (the Revert button). */
    method RevertChanges()
      modifies this
      ensures State() == Next(old(State()), Revert)
    {
      if !buttons.revert {
        return;
      }
      current := original;
      buttons := buttons.(reduce := false, smooth := true, revert := false);
    }

    /** close_button_callback. */
    method CloseButton()
      modifies this
      ensures State() == Next(old(State()), Close)
    {
      current, original := None, None;
      choices, layer := [], "";
      buttons := Buttons(true, false, false, false, false, false, false, false, false, false, false);
    }
  }
}

/**
 * Start-up settings: the range checks applied to the command-line values,
 * the substitution of defaults for missing or rejected values, and the
 * window size derived from the chosen field size. A command-line value
 * reaches the model already converted to an integer; the display size is
 * a parameter.
 */
module Launcher {
  import opened GameField

  const MIN_FIELD_WIDTH: int := 800
  const MIN_WORKSPACE_HEIGHT: int := 600
  /** Declared beside the bounds, but the start-up code never uses it: a
      missing or rejected multiplier falls back to the minimum, 1. */
  const DEFAULT_SIMULATION_SPEED_MULTIPLIER: int := 5
  const MIN_SIMULATION_SPEED_MULTIPLIER: int := 1
  const MAX_SIMULATION_SPEED_MULTIPLIER: int := 200
  const DEFAULT_TEXTURES_PATH: string := "resources"

  /** The widest field that still leaves room for the control panel and
      the two side margins on a display `displayWidth` pixels wide. */
  function MaxFieldWidth(displayWidth: int): int
  {
    displayWidth - CTRL_PANEL_WIDTH - OFFSET_X * 2
  }

  function MaxFieldHeight(displayHeight: int): int
  {
    displayHeight - OFFSET_Y * 2
  }

  /** A width is accepted when it lies between the minimum and the widest
      field the display allows; a rejected width reads as 0. */
  function CheckFieldWidthParam(fieldWidth: int, displayWidth: int, displayHeight: int): (r: int)
    ensures r != 0 <==> MIN_FIELD_WIDTH <= fieldWidth <= MaxFieldWidth(displayWidth)
    ensures r == 0 || r == fieldWidth
  {
    if fieldWidth < MIN_FIELD_WIDTH || fieldWidth > MaxFieldWidth(displayWidth) then 0
    else fieldWidth
  }

  function CheckFieldHeightParam(fieldHeight: int, displayWidth: int, displayHeight: int): (r: int)
    ensures r != 0 <==> MIN_WORKSPACE_HEIGHT <= fieldHeight <= MaxFieldHeight(displayHeight)
    ensures r == 0 || r == fieldHeight
  {
    if fieldHeight < MIN_WORKSPACE_HEIGHT || fieldHeight > MaxFieldHeight(displayHeight) then 0
    else fieldHeight
  }

  function CheckSimSpeedMultiplierParam(multiplier: int): (r: int)
    ensures r != 0 <==> MIN_SIMULATION_SPEED_MULTIPLIER <= multiplier <= MAX_SIMULATION_SPEED_MULTIPLIER
    ensures r == 0 || r == multiplier
  {
    if multiplier < MIN_SIMULATION_SPEED_MULTIPLIER || multiplier > MAX_SIMULATION_SPEED_MULTIPLIER then 0
    else multiplier
  }

  /** The value a setting ends with: the checked value when it was given and
      accepted, otherwise the default. */
  function Chosen(given: bool, checked: int, default: int): int
  {
    if given && checked != 0 then checked else default
  }

  datatype Settings = Settings(fieldWidth: int, fieldHeight: int, simSpeedMultiplier: int, texturesPath: string)

  /** The settings chosen from the argument count and the arguments.
      `args` holds the values of the arguments after the program name, as
      integers, for as many of the first three as were given, and
      `texturesArg` the fourth argument, read only when argc is at least 5. */
  method ChooseSettings(argc: int, args: seq<int>, texturesArg: string, displayWidth: int, displayHeight: int)
    returns (s: Settings)
    requires argc >= 1 && |args| == (if argc - 1 < 3 then argc - 1 else 3)
    ensures s.fieldWidth == Chosen(argc >= 2, if argc >= 2 then CheckFieldWidthParam(args[0], displayWidth, displayHeight) else 0, MIN_FIELD_WIDTH)
    ensures s.fieldHeight == Chosen(argc >= 3, if argc >= 3 then CheckFieldHeightParam(args[1], displayWidth, displayHeight) else 0, MIN_WORKSPACE_HEIGHT)
    ensures s.simSpeedMultiplier == Chosen(argc >= 4, if argc >= 4 then CheckSimSpeedMultiplierParam(args[2]) else 0, MIN_SIMULATION_SPEED_MULTIPLIER)
    ensures s.texturesPath == if argc >= 5 then texturesArg else DEFAULT_TEXTURES_PATH
  {
    var fieldWidth := 0;
    var fieldHeight := 0;
    var simSpeedMultiplier := 1;
    var texturesPath := "";
    if argc == 1 {
      fieldWidth := MIN_FIELD_WIDTH;
      fieldHeight := MIN_WORKSPACE_HEIGHT;
      simSpeedMultiplier := MIN_SIMULATION_SPEED_MULTIPLIER;
      texturesPath := DEFAULT_TEXTURES_PATH;
    } else if argc == 2 {
      fieldWidth := CheckFieldWidthParam(args[0], displayWidth, displayHeight);
      if fieldWidth == 0 {
        fieldWidth := MIN_FIELD_WIDTH;
      }
      fieldHeight := MIN_WORKSPACE_HEIGHT;
      simSpeedMultiplier := MIN_SIMULATION_SPEED_MULTIPLIER;
      texturesPath := DEFAULT_TEXTURES_PATH;
    } else if argc == 3 {
      fieldWidth := CheckFieldWidthParam(args[0], displayWidth, displayHeight);
      if fieldWidth == 0 {
        fieldWidth := MIN_FIELD_WIDTH;
      }
      fieldHeight := CheckFieldHeightParam(args[1], displayWidth, displayHeight);
      if fieldHeight == 0 {
        fieldHeight := MIN_WORKSPACE_HEIGHT;
      }
      simSpeedMultiplier := MIN_SIMULATION_SPEED_MULTIPLIER;
      texturesPath := DEFAULT_TEXTURES_PATH;
    } else {
      fieldWidth := CheckFieldWidthParam(args[0], displayWidth, displayHeight);
      if fieldWidth == 0 {
        fieldWidth := MIN_FIELD_WIDTH;
      }
      fieldHeight := CheckFieldHeightParam(args[1], displayWidth, displayHeight);
      if fieldHeight == 0 {
        fieldHeight := MIN_WORKSPACE_HEIGHT;
      }
      simSpeedMultiplier := CheckSimSpeedMultiplierParam(args[2]);
      if simSpeedMultiplier == 0 {
        simSpeedMultiplier := MIN_SIMULATION_SPEED_MULTIPLIER;
      }
      texturesPath := if argc == 4 then DEFAULT_TEXTURES_PATH else texturesArg;
    }
    s := Settings(fieldWidth, fieldHeight, simSpeedMultiplier, texturesPath);
  }

  /** Every chosen setting is either the given value, accepted by its check,
      or the default. So the speed multiplier is always in [1, 200], the
      delay division by it is defined, and the field is at least 800 x 600
      and fits the display unless it is the default on a smaller display. */
  lemma ChosenInRange(argc: int, args: seq<int>, displayWidth: int, displayHeight: int, s: Settings)
    requires argc >= 1 && |args| == (if argc - 1 < 3 then argc - 1 else 3)
    requires s.fieldWidth == Chosen(argc >= 2, if argc >= 2 then CheckFieldWidthParam(args[0], displayWidth, displayHeight) else 0, MIN_FIELD_WIDTH)
    requires s.fieldHeight == Chosen(argc >= 3, if argc >= 3 then CheckFieldHeightParam(args[1], displayWidth, displayHeight) else 0, MIN_WORKSPACE_HEIGHT)
    requires s.simSpeedMultiplier == Chosen(argc >= 4, if argc >= 4 then CheckSimSpeedMultiplierParam(args[2]) else 0, MIN_SIMULATION_SPEED_MULTIPLIER)
    ensures MIN_SIMULATION_SPEED_MULTIPLIER <= s.simSpeedMultiplier <= MAX_SIMULATION_SPEED_MULTIPLIER
    ensures s.fieldWidth == MIN_FIELD_WIDTH || (argc >= 2 && s.fieldWidth == args[0] && s.fieldWidth <= MaxFieldWidth(displayWidth))
    ensures s.fieldHeight == MIN_WORKSPACE_HEIGHT || (argc >= 3 && s.fieldHeight == args[1] && s.fieldHeight <= MaxFieldHeight(displayHeight))
    ensures s.fieldWidth >= MIN_FIELD_WIDTH && s.fieldHeight >= MIN_WORKSPACE_HEIGHT
  {
  }

  /** The window holds the control panel, the field and the margins. */
  function WindowSize(fieldWidth: int, fieldHeight: int): (int, int)
  {
    (fieldWidth + CTRL_PANEL_WIDTH + OFFSET_X * 2, fieldHeight + OFFSET_Y * 2)
  }

  /** A field the checks accept gives a window no larger than the display. */
  lemma AcceptedFieldFitsDisplay(fieldWidth: int, fieldHeight: int, displayWidth: int, displayHeight: int)
    requires CheckFieldWidthParam(fieldWidth, displayWidth, displayHeight) != 0
    requires CheckFieldHeightParam(fieldHeight, displayWidth, displayHeight) != 0
    ensures WindowSize(fieldWidth, fieldHeight).0 <= displayWidth
    ensures WindowSize(fieldWidth, fieldHeight).1 <= displayHeight
  {
  }

  /** Every field the settings can choose is large enough for the grid
      arithmetic: at least 40 x 30 tiles of the default size. */
  lemma ChosenFieldIsLarge(fieldWidth: int, fieldHeight: int)
    requires fieldWidth >= MIN_FIELD_WIDTH && fieldHeight >= MIN_WORKSPACE_HEIGHT
    ensures CeilDiv(fieldWidth, 20) >= 40 && CeilDiv(fieldHeight, 20) >= 30
  {
    DivLower(fieldWidth + 19, 20, 40);
    DivLower(fieldHeight + 19, 20, 30);
  }
}

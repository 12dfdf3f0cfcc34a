/** compress_pdf: the compression level picks a Ghostscript quality preset,
    and the Ghostscript command line is assembled from it; level 5 adds
    downsampling options after the compatibility flag. */
module Compress {
  import opened Outcomes
  import opened PageSelection

  /** quality_map: compression level to -dPDFSETTINGS preset. */
  const QualityMap: map<int, string> :=
    map[1 := "/prepress", 2 := "/printer", 3 := "/ebook", 4 := "/screen", 5 := "/ebook"]

  /** The level in force once an unknown one has been replaced by 3. */
  function EffectiveLevel(power: int): (level: int)
    ensures level in QualityMap
    ensures 1 <= power <= 5 ==> level == power
    ensures !(1 <= power <= 5) ==> level == 3
  {
    if power in QualityMap then power else 3
  }

  /** The preset used for a requested level: each of 1-5 has its own entry,
      level 5 shares "/ebook" with level 3, and anything else gets "/ebook". */
  function Preset(power: int): (quality: string)
    ensures quality == if power == 1 then "/prepress"
                       else if power == 2 then "/printer"
                       else if power == 4 then "/screen"
                       else "/ebook"
  {
    QualityMap[EffectiveLevel(power)]
  }

  /** The options spliced in for level 5, in order. */
  const DownsampleFlags: seq<string> := [
    "-dDetectDuplicateImages=true",
    "-dColorImageResolution=150",
    "-dGrayImageResolution=150",
    "-dMonoImageResolution=150",
    "-dDownsampleColorImages=true",
    "-dDownsampleGrayImages=true",
    "-dDownsampleMonoImages=true"
  ]

  /** The command compress_pdf runs: device and compatibility first, then
      the level-5 options when the level is 5, then the preset, the batch
      switches, the output and finally the input file. */
  function GsCommand(input: string, output: string, power: int): (cmd: seq<string>)
    ensures |cmd| == if EffectiveLevel(power) == 5 then 17 else 10
    ensures cmd[0] == "gs" && cmd[|cmd| - 1] == input
    ensures cmd[|cmd| - 2] == "-sOutputFile=" + output
    ensures cmd[|cmd| - 7] == "-dPDFSETTINGS=" + Preset(power)
  {
    ["gs", "-sDEVICE=pdfwrite", "-dCompatibilityLevel=1.5"]
    + (if EffectiveLevel(power) == 5 then DownsampleFlags else [])
    + ["-dPDFSETTINGS=" + Preset(power), "-dNOPAUSE", "-dQUIET", "-dBATCH",
       "-dAutoRotatePages=/None", "-sOutputFile=" + output, input]
  }

  /** Builds gs_cmd as compress_pdf does: the ten-element list, then for
      level 5 the slice assignment gs_cmd[3:3] = [...]. */
  method BuildCommand(input: string, output: string, power: int) returns (cmd: seq<string>)
    ensures cmd == GsCommand(input, output, power)
  {
    var level := power;
    if level !in QualityMap {
      // compress_pdf prints a warning and falls back to level 3
      level := 3;
    }
    var quality := QualityMap[level];
    cmd := ["gs", "-sDEVICE=pdfwrite", "-dCompatibilityLevel=1.5",
            "-dPDFSETTINGS=" + quality, "-dNOPAUSE", "-dQUIET", "-dBATCH",
            "-dAutoRotatePages=/None", "-sOutputFile=" + output, input];
    if level == 5 {
      cmd := cmd[..3] + DownsampleFlags + cmd[3..];
    }
  }

  /** compress_pdf up to the point where Ghostscript is started: a missing
      input is reported, otherwise the command to run is the result. */
  method CompressPdf(fs: FileSystem, input: string, output: string, power: int)
    returns (r: Result<seq<string>>)
    ensures r == if input in fs then Ok(GsCommand(input, output, power))
                 else Err(FileNotFound(input))
  {
    if input !in fs {
      r := Err(FileNotFound(input));
      return;
    }
    var cmd := BuildCommand(input, output, power);
    r := Ok(cmd);
  }

  /** Removing the level-5 options leaves exactly the command every other
      level would run with the same preset. */
  lemma DownsampleOnlyAdds(input: string, output: string)
    ensures var five, three := GsCommand(input, output, 5), GsCommand(input, output, 3);
      five[..3] + five[10..] == three && five[3..10] == DownsampleFlags
  {
  }

  /** An invalid level behaves exactly like level 3. */
  lemma InvalidLevelIsDefault(input: string, output: string, power: int)
    requires !(1 <= power <= 5)
    ensures GsCommand(input, output, power) == GsCommand(input, output, 3)
  {
  }
}

/** The upload page (src/pages/Upload.tsx): file acceptance, the analyze
    guard and the progress ticks of the simulated analysis. The interval
    timer is left to the caller, who calls `ProgressTick` once per tick. */
module UploadPage {
  import opened Wrappers
  import opened Text
  import opened ResumeParser

  const InvalidFileMessage := "Please upload a PDF or DOCX file."

  /** The progress step of one tick and the value at which processing ends. */
  const ProgressStep := 10
  const ProgressDone := 100

  /** Every field of the page at one moment. */
  datatype PageState = PageState(
    file: Option<ResumeFile>,
    isDragging: bool,
    isProcessing: bool,
    progress: int,
    processed: bool,
    manualEntry: bool,
    skills: string,
    fileError: Option<string>)

  /** `file` and `fileError` after files are dropped or chosen: only the
      first file is looked at; a PDF or DOCX file is stored, any other type
      leaves the stored file alone and raises the error message. */
  function Accept(file: Option<ResumeFile>, fileError: Option<string>, files: seq<ResumeFile>): (Option<ResumeFile>, Option<string>) {
    if files == [] then (file, fileError)
    else if IsSupportedMime(files[0].mimeType) then (Some(files[0]), fileError)
    else (file, Some(InvalidFileMessage))
  }

  /** Whether `handleAnalyze` gets past its two guards. */
  function AnalyzeStarts(hasFile: bool, manualEntry: bool, skills: string): bool {
    if !hasFile && !manualEntry then false
    else if manualEntry && Trim(skills) == "" then false
    else true
  }

  /** Progress and flags after one tick of the interval. */
  datatype Run = Run(progress: int, isProcessing: bool, processed: bool)

  function Tick(r: Run): Run {
    if r.progress >= ProgressDone then Run(ProgressDone, false, true)
    else r.(progress := r.progress + ProgressStep)
  }

  function Ticks(r: Run, n: nat): Run {
    if n == 0 then r else Tick(Ticks(r, n - 1))
  }

  /** The progress values the page can show. */
  predicate ValidProgress(progress: int) {
    0 <= progress <= ProgressDone && progress % ProgressStep == 0
  }

  /** A stored file is always a PDF or DOCX file; a rejected one only raises the error. */
  lemma AcceptEffect(file: Option<ResumeFile>, fileError: Option<string>, files: seq<ResumeFile>)
    ensures var (f, e) := Accept(file, fileError, files);
      && (files == [] ==> f == file && e == fileError)
      && (files != [] && IsSupportedMime(files[0].mimeType) ==> f == Some(files[0]) && e == fileError)
      && (files != [] && !IsSupportedMime(files[0].mimeType) ==> f == file && e == Some(InvalidFileMessage))
      && (f.Some? && f != file ==> IsSupportedMime(f.value.mimeType))
      && (files != [] ==> Accept(file, fileError, files) == Accept(file, fileError, files[..1]))
  {
  }

  /** Analysis starts exactly when there is a file and manual entry is off,
      or manual entry is on and the skills text has a non-space character. */
  lemma AnalyzeStartsIff(hasFile: bool, manualEntry: bool, skills: string)
    ensures AnalyzeStarts(hasFile, manualEntry, skills) <==>
      (hasFile && !manualEntry)
      || (manualEntry && exists k :: 0 <= k < |skills| && !IsSpace(skills[k]))
  {
    TrimEmptyIffBlank(skills);
  }

  /** A tick keeps the progress a multiple of ten between 0 and 100, and
      at 100 it ends processing and marks the analysis processed. */
  lemma TickEffect(r: Run)
    requires ValidProgress(r.progress)
    ensures ValidProgress(Tick(r).progress)
    ensures r.progress < ProgressDone ==>
      Tick(r) == r.(progress := r.progress + ProgressStep)
    ensures r.progress == ProgressDone ==>
      Tick(r) == Run(ProgressDone, false, true)
  {
  }

  /** From a fresh start the progress is 10 per tick for ten ticks, still
      processing; from the eleventh tick on it is 100 and processed. */
  lemma {:induction false} TicksFromStart(n: nat)
    ensures Ticks(Run(0, true, false), n) ==
      if n <= 10 then Run(ProgressStep * n, true, false) else Run(ProgressDone, false, true)
  {
    if n > 0 {
      TicksFromStart(n - 1);
    }
  }

  /** The page's state. */
  class UploadPage {
    var file: Option<ResumeFile>
    var isDragging: bool
    var isProcessing: bool
    var progress: int
    var processed: bool
    var manualEntry: bool
    var skills: string
    var fileError: Option<string>

    function State(): PageState
      reads this
    {
      PageState(file, isDragging, isProcessing, progress, processed, manualEntry, skills, fileError)
    }

    predicate Valid()
      reads this
    {
      ValidProgress(progress)
    }

    constructor ()
      ensures State() == PageState(None, false, false, 0, false, false, "", None)
      ensures Valid()
    {
      file := None;
      isDragging := false;
      isProcessing := false;
      progress := 0;
      processed := false;
      manualEntry := false;
      skills := "";
      fileError := None;
    }

    method HandleDragOver()
      requires Valid()
      modifies this
      ensures State() == old(State()).(isDragging := true)
      ensures Valid()
    {
      isDragging := true;
    }

    method HandleDragLeave()
      requires Valid()
      modifies this
      ensures State() == old(State()).(isDragging := false)
      ensures Valid()
    {
      isDragging := false;
    }

    method HandleDrop(files: seq<ResumeFile>)
      requires Valid()
      modifies this
      ensures var (f, e) := Accept(old(file), old(fileError), files);
        State() == old(State()).(isDragging := false, file := f, fileError := e)
      ensures Valid()
    {
      isDragging := false;
      var (f, e) := Accept(file, fileError, files);
      file, fileError := f, e;
    }

    method HandleFileChange(files: seq<ResumeFile>)
      requires Valid()
      modifies this
      ensures var (f, e) := Accept(old(file), old(fileError), files);
        State() == old(State()).(file := f, fileError := e)
      ensures Valid()
    {
      var (f, e) := Accept(file, fileError, files);
      file, fileError := f, e;
    }

    /** `started` tells whether the guards let the analysis (and its timer) start. */
    method HandleAnalyze() returns (started: bool)
      requires Valid()
      modifies this
      ensures started == AnalyzeStarts(old(file).Some?, old(manualEntry), old(skills))
      ensures started ==> State() == old(State()).(isProcessing := true)
      ensures !started ==> State() == old(State())
      ensures Valid()
    {
      started := AnalyzeStarts(file.Some?, manualEntry, skills);
      if started {
        isProcessing := true;
      }
    }

    method ProgressTick()
      requires Valid()
      modifies this
      ensures var r := Tick(Run(old(progress), old(isProcessing), old(processed)));
        State() == old(State()).(progress := r.progress, isProcessing := r.isProcessing, processed := r.processed)
      ensures Valid()
    {
      var r := Tick(Run(progress, isProcessing, processed));
      TickEffect(Run(progress, isProcessing, processed));
      progress, isProcessing, processed := r.progress, r.isProcessing, r.processed;
    }

    method HandleRemoveFile()
      requires Valid()
      modifies this
      ensures State() == old(State()).(file := None, progress := 0, processed := false)
      ensures Valid()
    {
      file := None;
      progress := 0;
      processed := false;
    }

    method ToggleManualEntry()
      requires Valid()
      modifies this
      ensures State() == old(State()).(manualEntry := !old(manualEntry))
      ensures Valid()
    {
      manualEntry := !manualEntry;
    }

    method SetSkills(value: string)
      requires Valid()
      modifies this
      ensures State() == old(State()).(skills := value)
      ensures Valid()
    {
      skills := value;
    }
  }
}

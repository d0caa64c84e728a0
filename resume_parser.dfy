/** The resume parser (src/utils/resumeParser.ts): skill extraction from text
    and the MIME-type dispatch that obtains the text. The PDF and DOCX text
    extractors belong to a foreign library; their outcomes are parameters. */
module ResumeParser {
  import opened Wrappers
  import opened Text
  import opened Seqs

  /** The fixed skill vocabulary searched for in resume text. */
  const COMMON_SKILLS: seq<string> :=
    ["javascript", "typescript", "react", "angular", "vue", "node", "express"] +
    ["python", "django", "flask", "java", "spring", "c#", ".net", "php", "laravel"] +
    ["ruby", "rails", "go", "rust", "sql", "mysql", "postgresql", "mongodb", "nosql"] +
    ["aws", "azure", "gcp", "docker", "kubernetes", "jenkins", "git", "ci/cd"] +
    ["html", "css", "sass", "less", "tailwind", "bootstrap", "materialui", "figma"] +
    ["photoshop", "illustrator", "ui/ux", "responsive design", "mobile development"] +
    ["ios", "android", "flutter", "react native", "swift", "kotlin", "objective-c"] +
    ["data analysis", "machine learning", "deep learning", "nlp", "computer vision"] +
    ["tensorflow", "pytorch", "scikit-learn", "pandas", "numpy", "r", "tableau"] +
    ["power bi", "excel", "agile", "scrum", "jira", "confluence", "leadership"] +
    ["teamwork", "communication", "problem solving", "critical thinking"]

  const PDF_MIME := "application/pdf"
  const DOCX_MIME := "application/vnd.openxmlformats-officedocument.wordprocessingml.document"

  /** A `File` as far as the parser looks at it: its MIME type. */
  datatype ResumeFile = ResumeFile(mimeType: string)

  predicate IsSupportedMime(mimeType: string) {
    mimeType == PDF_MIME || mimeType == DOCX_MIME
  }

  // ---------------------------------------------------------------------------
  // extractSkills

  /** The candidates whose lower-case form occurs in the (lower-cased) text,
      in candidate order. */
  function FoundSkills(lowerText: string, candidates: seq<string>): (r: seq<string>)
    ensures forall x :: x in r <==> x in candidates && Contains(lowerText, Lower(x))
  {
    if candidates == [] then []
    else
      var init, last := candidates[..|candidates| - 1], candidates[|candidates| - 1];
      assert candidates == init + [last];
      FoundSkills(lowerText, init) + (if Contains(lowerText, Lower(last)) then [last] else [])
  }

  /** `extractSkills(text)`: the empty text gives no skills; otherwise the
      vocabulary entries found in the lower-cased text, first occurrence kept. */
  function ExtractSkills(text: string): seq<string> {
    if text == "" then [] else Dedup(FoundSkills(Lower(text), COMMON_SKILLS))
  }

  lemma {:induction false} FoundSkillsSubsequence(lowerText: string, candidates: seq<string>)
    ensures IsSubsequence(FoundSkills(lowerText, candidates), candidates)
  {
    if candidates == [] {
      SubsequenceRefl(candidates);
    } else {
      var init, last := candidates[..|candidates| - 1], candidates[|candidates| - 1];
      assert candidates == init + [last];
      FoundSkillsSubsequence(lowerText, init);
      SubsequenceSnoc(FoundSkills(lowerText, init), init, last);
      if !Contains(lowerText, Lower(last)) {
        assert FoundSkills(lowerText, candidates) == FoundSkills(lowerText, init);
      }
    }
  }

  /** `extractSkills("")` is empty. */
  lemma ExtractSkillsEmpty()
    ensures ExtractSkills("") == []
  {
  }

  /** The result is exactly the vocabulary entries occurring in the
      lower-cased text, without duplicates and in vocabulary order. */
  lemma ExtractSkillsCorrect(text: string)
    ensures forall x :: x in ExtractSkills(text) <==>
      text != "" && x in COMMON_SKILLS && Contains(Lower(text), Lower(x))
    ensures Distinct(ExtractSkills(text))
    ensures IsSubsequence(ExtractSkills(text), COMMON_SKILLS)
  {
    if text == "" {
      assert ExtractSkills(text) == [];
      assert EmbedsBy([], COMMON_SKILLS, []);
    } else {
      var found := FoundSkills(Lower(text), COMMON_SKILLS);
      DedupSubsequence(found);
      FoundSkillsSubsequence(Lower(text), COMMON_SKILLS);
      SubsequenceTrans(Dedup(found), found, COMMON_SKILLS);
    }
  }

  /** Lower-casing the text first changes nothing. */
  lemma ExtractSkillsCaseInsensitive(text: string)
    ensures ExtractSkills(Lower(text)) == ExtractSkills(text)
  {
    LowerIdempotent(text);
    assert |Lower(text)| == |text|;
  }

  /** Surrounding the text with more text never loses a skill. */
  lemma ExtractSkillsMonotone(before: string, text: string, after: string, x: string)
    requires x in ExtractSkills(text)
    ensures x in ExtractSkills(before + text + after)
  {
    ExtractSkillsCorrect(text);
    ExtractSkillsCorrect(before + text + after);
    LowerAppend(before, text);
    LowerAppend(before + text, after);
    ContainsWithin(Lower(before), Lower(text), Lower(after), Lower(x));
  }

  /** One vocabulary entry: found exactly when it occurs in the lower-cased text. */
  lemma ExtractSkillsMember(text: string, x: string)
    requires x in COMMON_SKILLS
    ensures x in ExtractSkills(text) <==> text != "" && Contains(Lower(text), Lower(x))
  {
    ExtractSkillsCorrect(text);
  }

  lemma LiteralFacts()
    ensures Lower("javascript") == "javascript" && Lower("java") == "java" && Lower("r") == "r"
    ensures OccursAt("javascript", "java", 0)
  {
  }

  lemma VocabularyEntries()
    ensures "javascript" in COMMON_SKILLS && "java" in COMMON_SKILLS && "r" in COMMON_SKILLS
  {
    assert COMMON_SKILLS[0] == "javascript";
    assert COMMON_SKILLS[10] == "java";
    assert COMMON_SKILLS[63] == "r";
  }

  /** Substring matching makes "javascript" imply "java". */
  lemma JavaFoundWithJavascript(text: string)
    requires "javascript" in ExtractSkills(text)
    ensures "java" in ExtractSkills(text)
  {
    LiteralFacts();
    VocabularyEntries();
    ExtractSkillsMember(text, "javascript");
    ExtractSkillsMember(text, "java");
    ContainsAt("javascript", "java", 0);
    ContainsTransitive(Lower(text), "javascript", "java");
  }

  /** The one-letter entry "r" is found in every text with a letter r in either case. */
  lemma SkillRFoundWithLetterR(text: string)
    ensures "r" in ExtractSkills(text) <==> exists i :: 0 <= i < |text| && (text[i] == 'r' || text[i] == 'R')
  {
    LiteralFacts();
    VocabularyEntries();
    ExtractSkillsMember(text, "r");
    ContainsChar(Lower(text), 'r');
    assert "r" == ['r'];
    forall i | 0 <= i < |text| ensures Lower(text)[i] == 'r' <==> text[i] == 'r' || text[i] == 'R' {
    }
  }

  // ---------------------------------------------------------------------------
  // extractTextFromResume and parseResume

  /** `extractTextFromResume(file)`: PDF files go to the PDF extractor, DOCX
      files to the DOCX extractor, whose outcomes are given; any other type fails. */
  function ExtractTextFromResume(file: ResumeFile, pdfText: Result<string>, docxText: Result<string>): (r: Result<string>)
    ensures !IsSupportedMime(file.mimeType) ==> r == Err("Unsupported file format")
    ensures file.mimeType == PDF_MIME ==> r == pdfText
    ensures file.mimeType == DOCX_MIME ==> r == docxText
  {
    if file.mimeType == PDF_MIME then pdfText
    else if file.mimeType == DOCX_MIME then docxText
    else Err("Unsupported file format")
  }

  /** `parseResume(file)`: the skills of the extracted text, or the single
      error "Failed to parse resume" whatever made the extraction fail. */
  function ParseResume(file: ResumeFile, pdfText: Result<string>, docxText: Result<string>): Result<seq<string>> {
    match ExtractTextFromResume(file, pdfText, docxText)
    case Ok(text) => Ok(ExtractSkills(text))
    case Err(_) => Err("Failed to parse resume")
  }

  lemma ParseResumeOutcome(file: ResumeFile, pdfText: Result<string>, docxText: Result<string>)
    ensures var r := ParseResume(file, pdfText, docxText);
      && (r.Ok? <==> IsSupportedMime(file.mimeType) && ExtractTextFromResume(file, pdfText, docxText).Ok?)
      && (r.Ok? ==> r.value == ExtractSkills(ExtractTextFromResume(file, pdfText, docxText).value))
      && (r.Err? ==> r.error == "Failed to parse resume")
  {
  }
}

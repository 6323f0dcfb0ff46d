/** The file-type filter applied to uploaded resumes (`allowed_file`). */
module Uploads {
  import opened Wrappers
  import opened Strings

  /** `ALLOWED_EXTENSIONS`. */
  const AllowedExtensions: set<string> := {"png", "jpg", "jpeg", "pdf"}

  /** `s.rfind(c)`: the position of the last occurrence of `c`, if any. */
  function LastIndexOf(s: string, c: char): (r: Option<nat>)
    ensures r.Some? ==> r.value < |s| && s[r.value] == c
                        && forall j :: r.value < j < |s| ==> s[j] != c
    ensures r.None? ==> forall j :: 0 <= j < |s| ==> s[j] != c
  {
    if s == [] then None
    else if s[|s| - 1] == c then Some(|s| - 1)
    else LastIndexOf(s[..|s| - 1], c)
  }

  /**
    `'.' in filename and filename.rsplit('.', 1)[1].lower() in ALLOWED_EXTENSIONS`:
    the name has a dot and the lower-cased text after its last dot is an
    allowed extension.
  */
  predicate AllowedFile(filename: string) {
    match LastIndexOf(filename, '.')
    case None => false
    case Some(i) => Lower(filename[i + 1..]) in AllowedExtensions
  }

  /**
    A name is accepted exactly when some dot in it is followed by a dot-free
    extension that lower-cases to png, jpg, jpeg or pdf.
  */
  lemma AllowedFileIff(filename: string)
    ensures AllowedFile(filename) <==>
      exists i :: 0 <= i < |filename| && filename[i] == '.'
                  && (forall j :: i < j < |filename| ==> filename[j] != '.')
                  && Lower(filename[i + 1..]) in AllowedExtensions
  {
    match LastIndexOf(filename, '.')
    case None =>
    case Some(k) =>
      forall i | 0 <= i < |filename| && filename[i] == '.'
                 && (forall j :: i < j < |filename| ==> filename[j] != '.')
        ensures i == k
      {
      }
  }
}

/**
 * The file-name checks applied to uploaded recipient lists and attachments
 * (app.py:38-39, 552-556): the text after the last dot, lower-cased, must be
 * one of a fixed set of extensions.
 */
module Uploads {
  import opened Options
  import opened Text

  /** Extensions accepted for recipient lists. */
  const DataExtensions: set<string> := {"csv", "xlsx", "xls"}

  /** Extensions accepted for attachments. */
  const AttachmentExtensions: set<string> := {"pdf", "doc", "docx", "txt", "jpg", "jpeg", "png", "gif"}

  /**
   * `name.rsplit('.', 1)[1]` when `name` holds a dot: the text after the last
   * dot, and nothing when there is no dot.
   */
  function Extension(name: string): (r: Option<string>)
    ensures r.None? <==> '.' !in name
    ensures r.Some? ==>
      '.' !in r.value && |r.value| < |name| &&
      name[|name| - |r.value| - 1] == '.' && name[|name| - |r.value|..] == r.value
    decreases |name|
  {
    if name == [] then None
    else
      var last := name[|name| - 1];
      var front := name[..|name| - 1];
      assert name == front + [last];
      if last == '.' then Some("")
      else match Extension(front) {
        case None => None
        case Some(e) => Some(e + [last])
      }
  }

  /** `allowed_file`: a recipient list must end in `.csv`, `.xlsx` or `.xls`, in any case. */
  predicate AllowedFile(name: string) {
    Extension(name).Some? && Lower(Extension(name).value) in DataExtensions
  }

  /** `allowed_attachment_file`: the same check against the attachment extensions. */
  predicate AllowedAttachmentFile(name: string) {
    Extension(name).Some? && Lower(Extension(name).value) in AttachmentExtensions
  }

  /** The extension is exactly what follows the last dot, whatever the stem holds. */
  lemma {:induction false} ExtensionAfterLastDot(stem: string, ext: string)
    requires '.' !in ext
    ensures Extension(stem + "." + ext) == Some(ext)
    decreases |ext|
  {
    var name := stem + "." + ext;
    if ext == [] {
      assert name[|name| - 1] == '.';
    } else {
      var front := ext[..|ext| - 1];
      assert '.' !in front by {
        forall k | 0 <= k < |front| ensures front[k] != '.' {
          assert front[k] == ext[k];
        }
      }
      ExtensionAfterLastDot(stem, front);
      assert name[..|name| - 1] == stem + "." + front;
      assert front + [ext[|ext| - 1]] == ext;
    }
  }

  /** A recipient list is accepted exactly when its last extension is a data extension. */
  lemma AllowedFileIff(stem: string, ext: string)
    requires '.' !in ext
    ensures AllowedFile(stem + "." + ext) <==> Lower(ext) in DataExtensions
  {
    ExtensionAfterLastDot(stem, ext);
  }

  /** An attachment is accepted exactly when its last extension is an attachment extension. */
  lemma AllowedAttachmentFileIff(stem: string, ext: string)
    requires '.' !in ext
    ensures AllowedAttachmentFile(stem + "." + ext) <==> Lower(ext) in AttachmentExtensions
  {
    ExtensionAfterLastDot(stem, ext);
  }

  /** A name without a dot is never accepted. */
  lemma NoDotRejected(name: string)
    requires '.' !in name
    ensures !AllowedFile(name) && !AllowedAttachmentFile(name)
  {
  }

  /** The check ignores the case of the extension. */
  lemma CaseIgnored(stem: string, ext: string)
    requires '.' !in ext
    ensures AllowedFile(stem + "." + Lower(ext)) == AllowedFile(stem + "." + ext)
    ensures AllowedAttachmentFile(stem + "." + Lower(ext)) == AllowedAttachmentFile(stem + "." + ext)
  {
    var l := Lower(ext);
    assert '.' !in l by {
      forall k | 0 <= k < |l| ensures l[k] != '.' {
        assert l[k] == LowerChar(ext[k]);
      }
    }
    assert Lower(l) == l;
    AllowedFileIff(stem, ext);
    AllowedFileIff(stem, l);
    AllowedAttachmentFileIff(stem, ext);
    AllowedAttachmentFileIff(stem, l);
  }
}

/** The statuses that several parts of the platform share (backend/app/db/models.py). */
module Statuses {

  datatype CaseStatus =
    | New | InReview | AwaitingEvidence | AwaitingFollowUp | ReadyForExport | Exported | Escalated | Closed

  datatype ExportStatus = Requested | Queued | Processing | Ready | Failed | Expired
}

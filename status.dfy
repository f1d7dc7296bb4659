/** The payment status of a resident as both screens label it
    (admin.js:109-113 and dashboard.js:134-138 define the same mapping). */
module PaymentStatus {

  /** `getStatusText(status)`: `paid` and `pending` have their own label, every
      other value, `overdue` included, reads as overdue. */
  function StatusText(status: string): (r: string)
    ensures r == "Pagado" <==> status == "paid"
    ensures r == "Pendiente" <==> status == "pending"
    ensures r == "Vencido" <==> status != "paid" && status != "pending"
  {
    if status == "paid" then "Pagado"
    else if status == "pending" then "Pendiente"
    else "Vencido"
  }
}
